# katalog-lib core, modelled in Dafny

This project models the logic at the heart of katalog-lib, a support library
for desktop tools built on iced. It covers five parts:

- **Single-process coordination.** (`ipc/src/single_process.rs`) The first
  process to start becomes the one subscriber of a publish/subscribe service.
  A later process either sends its input to that subscriber and exits
  (`single_process_`) or asks it to step down and takes its place
  (`subscribe_only_`). The model includes:
  - the subscriber handle and its id counter;
  - the `build_service` retry;
  - the subscriber thread's receive loop;
  - `publish_input`;
  - the replace loop with its doubling random back-off;
  - both entry points' dispatch.

  The transport is an oracle: every transport call is a boolean or outcome
  field saying whether it succeeded. Loops consume finite scripts of such
  outcomes.
- **`StaticPath<N>`.** (`ipc/src/static_path.rs`) These are path bytes in a
  bounded buffer. The model covers the conversions from and back to a path on
  Unix and on Windows, and the `Debug` rendering. Invalid UTF-8 bytes are
  rendered as `\xHH`, with `utf8_chunks` modelled after Rust's UTF-8 scanner.
- **Variant traits.** (`traits/src/lib.rs`) These are `variant_lifetime_cast`,
  the default `partial_cycle_next`/`partial_cycle_prev` loops, the blanket
  `PartialVariants` impl for `Variants + Cycle` types, and the `unsafe`
  contracts of `Variants` and `Cycle`.
- **`ThemeValueEnum`.** (`katalog-lib/src/theme_value_enum.rs`) This is the
  parsing of theme names and the conversions to and from iced's `Theme`.
  `Theme::ALL` is a parameter.
- **Reflection.** (`reflect/src/lib.rs`) This is `UnknownVariant` plus the
  test enum and struct whose derived impls the crate's tests pin down: the
  variant list, cycling, names and parsing, and the proxy getters' defaults.
  `UnknownVariant` displays as the fixed text "no variant with given name
  available" (`Reflect.UnknownVariantMessage`).

Files:

| file | module |
|---|---|
| `wrappers.dfy` | `Wrappers`: `Option`, `Result` |
| `utf8.dfy` | `Utf8`: the UTF-8 scanner, `from_utf8` errors, `utf8_chunks` steps, encoding and decoding of strings |
| `static_path.dfy` | `StaticPaths` |
| `traits.dfy` | `Traits` |
| `theme_value_enum.dfy` | `Themes` |
| `reflect.dfy` | `Reflect` |
| `subscriber_handle.dfy` | `SubscriberHandles`: the keep-alive cell, handles, the id counter |
| `ipc_error.dfy` | `IpcErrors`: the error kinds the IPC entry points propagate |
| `subscriber_thread.dfy` | `SubscriberThread`: the receive loop |
| `publish.dfy` | `Publish`: `publish_input` |
| `replace_loop.dfy` | `ReplaceLoop`: the replace-and-back-off loop of `subscribe_only_` |
| `single_process.dfy` | `SingleProcess`: `build_service`, the setup, `create_subscriber_thread` and both entry points |

## Model

| member | source | states |
|---|---|---|
| `StaticPaths.TryFromPath` | ipc/src/static_path.rs:79-98 | Conversion succeeds exactly when the path fits in N bytes and, on Windows, is UTF-8. The result holds the path's bytes. Non-UTF-8 input on Windows gives `NotUtf8` before the length is looked at. Otherwise an overlong path gives `TooLong { at_most: N, len }`. |
| `StaticPaths.IntoPath` | ipc/src/static_path.rs:60-77 | On Unix it always succeeds with the stored bytes. On Windows it fails exactly when the bytes are not UTF-8, and the error is `from_utf8`'s: `valid_up_to` ends the longest well-formed prefix and `error_len` is as `CheckUtf8` gives it. |
| `StaticPaths.RoundTrip` | ipc/src/static_path.rs:60-98 | path → `StaticPath` → path is the identity for every path the conversion accepts, on both platforms. |
| `StaticPaths.WindowsStringRoundTrip` | ipc/src/static_path.rs:83-84 | On Windows every string path that fits makes the round trip. |
| `StaticPaths.WindowsIntoPathIsDecoding` | ipc/src/static_path.rs:64-68 | On Windows a `StaticPath` converts back exactly when its bytes are the encoding of some string. |
| `StaticPaths.HexEscape` | ipc/src/static_path.rs:109-111 | An invalid byte is written as `\x` followed by two upper-case hex digits whose value is the byte. |
| `StaticPaths.WriteEscaped` | ipc/src/static_path.rs:109-111 | The inner loop appends the escape of every invalid byte of a chunk, in order. |
| `StaticPaths.Fmt` | ipc/src/static_path.rs:101-116 | The chunk loop writes a quote, then each chunk's valid part verbatim followed by its invalid bytes escaped, then a quote. |
| `StaticPaths.EscapedOfUtf8` | ipc/src/static_path.rs:106-112 | A UTF-8 path is rendered unchanged between the quotes. |
| `StaticPaths.DebugOfUtf8` | ipc/src/static_path.rs:101-116 | The `Debug` output of a UTF-8 path is the path in quotes. |
| `StaticPaths.EscapedIsUtf8` | ipc/src/static_path.rs:106-112 | Whatever the bytes, the escaped rendering is well-formed UTF-8, so every `write_str` receives a valid `str`. |
| `StaticPaths.DebugIsUtf8` | ipc/src/static_path.rs:101-116 | The whole `Debug` output is well-formed UTF-8. |
| `StaticPaths.DebugCollision` | ipc/src/static_path.rs:106-112 | Valid backslashes are not escaped, so the byte 0xFF and the text `\xFF` render alike: the rendering is not injective. |
| `Utf8.CheckUtf8` | ipc/src/static_path.rs:65 | `from_utf8` fails exactly on ill-formed input. On failure `valid_up_to` ends a well-formed prefix followed by an ill-formed sequence, and `error_len` tells truncation from a bad byte. |
| `Utf8.NextChunk` | ipc/src/static_path.rs:106 | One `utf8_chunks` step: a well-formed prefix, then the maximal ill-formed subpart after it. It is empty only at the end, and it always makes progress. |
| `Utf8.NextChunkOfUtf8` | ipc/src/static_path.rs:106 | On well-formed input the first chunk is everything, with no invalid part. |
| `Traits.Cast` | traits/src/lib.rs:22-35 | When some variant has the value's discriminant, the result is a listed variant with that discriminant, and the first such one. |
| `Traits.VariantLifetimeCast` | traits/src/lib.rs:22-35 | The head-dropping slice loop returns exactly `Cast`. |
| `Traits.NextOf` | traits/src/lib.rs:45-70 | The element after the first one equal to `self`. When no element but the last equals it, the first element. Panics on an empty list, so the list must be non-empty. |
| `Traits.PrevOf` | traits/src/lib.rs:71-96 | The element before the first one after the head equal to `self`. When none matches, the last element. |
| `Traits.PartialCycleNext` | traits/src/lib.rs:53-70 | The peekable-iterator loop computes `NextOf`. |
| `Traits.PartialCyclePrev` | traits/src/lib.rs:78-96 | The loop tracking `last` computes `PrevOf`. |
| `Traits.NextOfCyclic` | traits/src/lib.rs:45-70 | On a list without duplicates the default next of the i-th element is element (i+1) mod n. |
| `Traits.PrevOfCyclic` | traits/src/lib.rs:71-96 | On a list without duplicates the default prev of the i-th element is element (i−1) mod n. |
| `Traits.NextPrevInverse` | traits/src/lib.rs:45-96 | On a list without duplicates next and prev undo each other. |
| `Traits.BlanketCycleNext` | traits/src/lib.rs:111-117 | The blanket `partial_cycle_next` is `cycle_next` cast back into `VARIANTS`. |
| `Traits.BlanketCyclePrev` | traits/src/lib.rs:119-125 | The blanket `partial_cycle_prev` is `cycle_prev` cast back into `VARIANTS`. |
| `Traits.CastOfMember` | traits/src/lib.rs:5-35 | When each variant is listed once with its own discriminant, casting a listed variant gives that entry. |
| `Traits.BlanketIsDefault` | traits/src/lib.rs:99-139 | When the `Cycle` contract holds, the blanket impl agrees with the default loops over `VARIANTS`. |
| `Themes.SameName` | katalog-lib/src/theme_value_enum.rs:17-22 | Two wrappers are equal exactly when they display the same name. |
| `Themes.ParseName` | katalog-lib/src/theme_value_enum.rs:61-85 | Parsing succeeds exactly when some theme's name equals the input ignoring ASCII case. It gives the first such theme; otherwise it fails with the input unchanged. |
| `Themes.TryFromString` | katalog-lib/src/theme_value_enum.rs:61-85 | The early-return loop of `TryFrom<String>` and `FromStr` computes `ParseName`. |
| `Themes.EqIgnoreAsciiCaseIsLowerEq` | katalog-lib/src/theme_value_enum.rs:66 | `eq_ignore_ascii_case` is equality of the ASCII-lower-cased strings. |
| `Themes.NameRoundTrip` | katalog-lib/src/theme_value_enum.rs:61-92 | Serialising a listed theme to its name and parsing it back gives the same wrapper, provided the names are distinct ignoring case. |
| `Themes.DefaultParses` | katalog-lib/src/theme_value_enum.rs:55-72 | Any case variant of "Dark" parses to a wrapper equal to `Default`. |
| `Themes.Default` | katalog-lib/src/theme_value_enum.rs:55-59 | The default wrapper's name is "Dark". |
| `Themes.FromTheme` | katalog-lib/src/theme_value_enum.rs:94-105 | `TryFrom<Theme>` succeeds exactly when a listed theme has the same discriminant, and gives the first such one. Otherwise it hands the theme back. |
| `Themes.TryFromTheme` | katalog-lib/src/theme_value_enum.rs:94-105 | The discriminant loop computes `FromTheme`. |
| `Themes.FromThemeOfListed` | katalog-lib/src/theme_value_enum.rs:94-105 | A listed theme converts to itself; a custom theme is refused. |
| `Themes.ValueVariants` | katalog-lib/src/theme_value_enum.rs:113-117 | Every theme of `Theme::ALL`, wrapped, in order. |
| `Themes.ValueEnumParse` | katalog-lib/src/theme_value_enum.rs:123-134 | `ValueEnum::from_str` succeeds exactly when some name matches the input, exactly or ignoring ASCII case as asked, and gives the first matching theme of `Theme::ALL`. Failure gives "could not get iced theme " followed by the input. |
| `Themes.ValueEnumFromStr` | katalog-lib/src/theme_value_enum.rs:123-134 | The loop computes `ValueEnumParse`. |
| `Themes.ValueEnumParseModes` | katalog-lib/src/theme_value_enum.rs:123-134 | An exact match is also a case-insensitive match, giving the same theme when names are distinct ignoring case. The case-insensitive mode agrees with `FromStr`. |
| `Themes.ThemeCycle` | katalog-lib/src/theme_value_enum.rs:17-31 | With name equality and `value_variants`, the default next and prev step cyclically through `Theme::ALL`. |
| `Reflect.AsStr` | reflect/src/lib.rs:105-121 | `as_str` of the variant at each position of `VARIANTS` is the name at that position of "First", "Second", "3:rd", "4". |
| `Reflect.IndexOf` | reflect/src/lib.rs:31-40 | `index_of` gives the position of the value in `VARIANTS`. |
| `Reflect.CycleNext` | reflect/src/lib.rs:94-103 | The derived `cycle_next` is the cyclic successor in `VARIANTS`. |
| `Reflect.CyclePrev` | reflect/src/lib.rs:94-103 | The derived `cycle_prev` is the cyclic predecessor in `VARIANTS`. |
| `Reflect.FromStr` | reflect/src/lib.rs:123-132 | The derived `FromStr` gives exactly the variant whose `as_str` is the input. Otherwise it fails with `UnknownVariant`. |
| `Reflect.FromStrAsStr` | reflect/src/lib.rs:105-132 | `from_str(as_str(v)) == Ok(v)` for every variant, and "abc" is refused. |
| `Reflect.VariantsContract` | reflect/src/lib.rs:84-92 | The derived `VARIANTS` lists every variant exactly once, each with its own discriminant. |
| `Reflect.CycleContractHolds` | reflect/src/lib.rs:94-103 | The derived `Cycle` meets the trait's `unsafe` contract. |
| `Reflect.PartialCycleOfTestEnum` | reflect/src/lib.rs:31-40 | For the test enum the blanket `partial_cycle_next`/`prev` equal `cycle_next`/`prev` and the default loops. |
| `Reflect.ProxyDefaults` | reflect/src/lib.rs:42-66 | With every optional field absent the proxy reads "" for `first`, the declared default 5 for `second`, `third` unchanged (it is `no_option`), and 0 for an `Err` in `fourth`. |
| `Reflect.ProxyPresent` | reflect/src/lib.rs:42-52 | With every optional field present the proxy reads the stored values, `Ok` being the present pattern of `fourth`. |
| `Reflect.ProxyFixtures` | reflect/src/lib.rs:54-82 | The two test structs read "", 5, 7, 0 and "Hello", 53, 9, 15 through the proxy. |
| `SubscriberHandles.KeepAlive.constructor` | ipc/src/single_process.rs:48 | A fresh keep-alive cell reads true and is held by the thread. |
| `SubscriberHandles.KeepAlive.Release` | ipc/src/single_process.rs:216-222 | The thread drops its strong reference; the value is left as it was. |
| `SubscriberHandles.SubscriberHandle.Close` | ipc/src/single_process.rs:69-74 | Afterwards the handle is closed. It stores false only while the cell is held, so calling it twice is the same as calling it once. |
| `SubscriberHandles.HandleEq` | ipc/src/single_process.rs:77-87 | Two handles are equal exactly when they feed the hasher the same values, so `Eq` and `Hash` agree. |
| `SubscriberHandles.EqAndHashAgree` | ipc/src/single_process.rs:77-89 | Equality and hashing depend on the id alone, whatever the cell. Equality is an equivalence. |
| `SubscriberHandles.IdCounter.constructor` | ipc/src/single_process.rs:46 | The counter starts at 1. |
| `SubscriberHandles.IdCounter.NewHandle` | ipc/src/single_process.rs:43-58 | The id is the counter's old value. The counter goes up by one, wrapping at 2^64, so ids strictly increase until the wrap. The handle's fresh cell reads true, so the handle is not closed. |
| `SubscriberThread.Drain` | ipc/src/single_process.rs:207-210 | Messages go to the handler in order until one is rejected, and that one is the last handled. Without a rejection every message is handled, and the drain ends with a receive error exactly when `receive` failed. |
| `SubscriberThread.DrainLoop` | ipc/src/single_process.rs:207-210 | The inner `while let` loop computes `Drain`. |
| `SubscriberThread.OnEvents` | ipc/src/single_process.rs:196-202 | After the wait callback the flag is false exactly when it was false or a replace event arrived. |
| `SubscriberThread.RunThread` | ipc/src/single_process.rs:188-225 | The thread's loops compute `Thread`. On every exit the flag is false and the strong reference is dropped, so any handle on the same flag reads `is_closed` exactly when the thread has stopped. |
| `SubscriberThread.HandledInOrder` | ipc/src/single_process.rs:194-211 | The handled messages are a prefix of everything received, in arrival order, none skipped or repeated. |
| `SubscriberThread.HandledAccepted` | ipc/src/single_process.rs:207-210 | Every handled message was accepted, except the last when the handler failed. |
| `SubscriberThread.ReplaceStillDrains` | ipc/src/single_process.rs:194-211 | A replace event clears the flag, but that round's messages are still drained before the loop stops. |
| `SubscriberThread.QuietRoundsContinue` | ipc/src/single_process.rs:194-211 | Without replace events, closes or errors the loop hands over every message and keeps running. |
| `Publish.PublishInput` | ipc/src/single_process.rs:243-262 | Steps run in order, up to and including the first that fails, and no further: publisher, notifier, loan, `input()`, send, notify, wait. A failing step names the error: `PublisherCreate`, `NotifierCreate`, `Loan`, the input's own error, or `Send`. Failure means nothing was sent. Success comes exactly when every step up to `send` succeeded, and then the input's value was sent and notify ran. `input()` runs only after publisher, notifier and loan succeeded, and `send` only after `input()` gave a message. |
| `Publish.AfterSendIgnored` | ipc/src/single_process.rs:251-262 | Failures of notify or of the wait after sending change neither the result nor what was sent. |
| `ReplaceLoop.Bound` | ipc/src/single_process.rs:320-326 | The back-off bound of each turn never exceeds 100 ms. |
| `ReplaceLoop.BoundClosedForm` | ipc/src/single_process.rs:320-326 | The bound of turn k is 2 ms doubled k+1 times, capped at 100 ms: 4, 8, 16, 32, 64, 100, … ms. |
| `ReplaceLoop.BoundGrows` | ipc/src/single_process.rs:326 | The bound never shrinks and is the cap from the sixth turn on. |
| `ReplaceLoop.SleepFor` | ipc/src/single_process.rs:328-330 | Each sleep is at most the current bound. |
| `ReplaceLoop.LoopOutcome` | ipc/src/single_process.rs:325-343 | Every turn but the last went round again: notify and wait succeeded, the slot was taken, and the deadline had not passed. The last turn decides the outcome as `EndsAs` lists. A notify or wait failure aborts with that error. A free slot wins even past the deadline. A timeout needs the slot still taken and now strictly after the deadline. Other creation errors propagate. There is one sleep per turn that got past the notify. |
| `ReplaceLoop.LoopContinues` | ipc/src/single_process.rs:336-341 | A turn that finds the slot taken before the deadline sleeps once and goes round again. |
| `ReplaceLoop.AcquireByReplace` | ipc/src/single_process.rs:319-344 | The loop that updates `max_sleep` computes `Loop`. |
| `ReplaceLoop.SleepsBounded` | ipc/src/single_process.rs:326-330 | The i-th sleep is at most the i-th bound, which is at most 100 ms. |
| `ReplaceLoop.CreatedWinsPastDeadline` | ipc/src/single_process.rs:332-335 | A slot found free on the first turn is taken, whatever the clock. |
| `SingleProcess.BuildService` | ipc/src/single_process.rs:135-160 | Opening fails only when both the first attempt and the single retry fail. The sweep and the retry happen exactly when the first attempt failed. |
| `SingleProcess.SweepFailureSwallowed` | ipc/src/single_process.rs:142-158 | A failing cleanup sweep does not change what `build_service` returns. |
| `SingleProcess.SetupError` | ipc/src/single_process.rs:382-387 | Setup stops at the first failing step, in order: node name, service name, node, service (with its retry), event service. It succeeds exactly when all steps succeed. |
| `SingleProcess.SingleProcessDispatch` | ipc/src/single_process.rs:389-399 | A created slot gives `Continue`, or the spawn error. An occupied slot publishes the input and gives `Break` exactly when publishing succeeded. Any other creation error or setup error is returned. The input is published only in the occupied branch. |
| `SingleProcess.InputOnlyWhenOccupied` | ipc/src/single_process.rs:389-399 | `input()` is called exactly when setup succeeded, the slot is occupied, and the publisher, notifier and loan succeeded. |
| `SingleProcess.CreateSubscriberThread` | ipc/src/single_process.rs:188-224 | The id is consumed either way. A spawn failure returns only the error. On success it returns a fresh, open handle whose id is the counter's old value. |
| `SingleProcess.SingleProcessEntry` | ipc/src/single_process.rs:351-400 | The entry point agrees with `SingleProcessDispatch`. Only the subscribing branch advances the counter, and a returned handle is fresh and open. |
| `SingleProcess.SubscribeOnly` | ipc/src/single_process.rs:278-348 | Setup errors, a spawn error, a notifier-creation error or another creation error propagate. On the replace path the script runs out exactly when every turn went round again. Otherwise the first turn that did not go round decides the result: a free slot starts the thread after that many turns (or gives the spawn error); a failed notify or wait, a creation error, or a still-taken slot past `start + timeout` gives that error. |
| `SingleProcess.SubscribeOnlyReplaces` | ipc/src/single_process.rs:318-335 | When the slot frees up on the first replace turn, a subscriber starts after that turn. |
| `SingleProcess.SubscribeOnlyEntry` | ipc/src/single_process.rs:278-348 | The entry point agrees with `SubscribeOnly`, and a returned handle is fresh and open. A new id is taken exactly when a subscriber thread is started, after a free slot at setup or a replace turn that found it free, whether or not the spawn succeeds. |

## Left out

- The iceoryx2 transport is not modelled: nodes, services, ports, shared memory, events and samples. Each call is an oracle value saying whether it succeeded. The subscriber's messages are scripted inboxes, and the clock is a number per replace turn.
- Threads, the `Relaxed` atomics and interleavings are not modelled. The thread runs as a sequential script against the handle's cell. A close by the owner is a flag in the script read before each wait.
- `rand::random_range` over `f64` seconds is modelled as a per-mille fraction `draw / 1000` of the bound, in whole microseconds. Floating point rounding is not modelled.
- The receive handler is a pure function from a message to accept or reject. An `FnMut`'s state is not modelled, and the handler's error value is reduced to "rejected".
- `log` output is not modelled.
- `thiserror` display messages are not modelled, except `ValueEnum::from_str`'s message and `UnknownVariant`'s message, which are values the code returns.
- The `bon` builder wrappers `single_process` and `subscribe_only` are not modelled: their defaults, and the "single_process_subscriber" thread name. Thread names play no part in the model.
- `NodeName::new` and `ServiceName::new` validation rules belong to iceoryx2 and appear only as a success flag.
- The derive macros of `katalog-lib-reflect-derive` are not part of this model. Their output for the test types is modelled from what the tests state: exact-match `FromStr` on the `as_str` names. The effect of `case_convert` and `display` is not modelled.
- iced's `Theme` is modelled as a name plus a discriminant. Its palettes and `Theme::ALL` contents are not modelled; `ALL` is a parameter.
- `OnceLock` caching in `value_variants` is not modelled; the function is pure.
- `into_inner`, `From<ThemeValueEnum> for Theme`, `to_possible_value` and the serde attributes are not modelled. They are one-line projections without logic.
- `Formatter` write errors are not modelled: `write_str` into the output sequence cannot fail.
- `try_into_path` only forwards to the conversion and is covered by `IntoPath`.
- `ReplaceLoop.AcquireByReplace`, `SubscriberThread.RunThread`, `SingleProcess.SubscribeOnly`: the loops that wait forever in the source are driven by finite scripts. When a script runs out with the loop still going, the result is `ScriptEnded` (`None` for `SubscribeOnly`) rather than an unbounded wait.
- `StaticPaths.TryFromPath`: the Windows path is modelled by its WTF-8 bytes. `to_str` succeeds exactly when those are UTF-8, and other WTF-8 details (unpaired surrogates) are not modelled.
- The `widget` crate and the remaining `traits` (`Proxy`, `IntoFields`, `FieldDelta`, `FieldsIdx`, `Fields`) are not modelled. They are declarations without logic.
