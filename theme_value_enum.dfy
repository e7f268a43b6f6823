/**
 * `ThemeValueEnum`: a wrapper of a built-in iced theme that parses from and
 * prints to the theme's name. The list `Theme::ALL` is a parameter `all`.
 */
module Themes {
  import opened Wrappers
  import opened Traits

  /** An iced theme: one of the built-in variants (its discriminant `tag`), or a custom one. */
  datatype Theme = Builtin(tag: nat, name: string) | Custom(name: string)

  /** `mem::discriminant` of a theme: custom themes share one. */
  datatype Discriminant = BuiltinTag(tag: nat) | CustomTag

  function Disc(t: Theme): Discriminant {
    if t.Builtin? then BuiltinTag(t.tag) else CustomTag
  }

  /** `Theme::Dark`, the second built-in variant. */
  const Dark: Theme := Builtin(1, "Dark")

  datatype ThemeValueEnum = ThemeValueEnum(theme: Theme)

  /** The error of `TryFrom<String>` and `FromStr`: the input, unchanged. */
  datatype FromStringError = FromStringError(value: string)

  /** `PartialEq`: two wrappers are equal when their themes have the same name, that is when they display alike. */
  predicate SameName(a: ThemeValueEnum, b: ThemeValueEnum)
    ensures SameName(a, b) <==> Name(a) == Name(b)
  {
    a.theme.name == b.theme.name
  }

  // ---------------------------------------------------------------------------
  // ASCII case

  function AsciiLower(c: char): (r: char)
    ensures 'A' <= c <= 'Z' ==> r as int == c as int + 32
    ensures !('A' <= c <= 'Z') ==> r == c
  {
    if 'A' <= c <= 'Z' then (c as int + 32) as char else c
  }

  /**
   * `str::eq_ignore_ascii_case`, character by character (ASCII bytes are
   * whole characters in UTF-8 and lowering changes only them, so this is the
   * byte-wise comparison).
   */
  predicate EqIgnoreAsciiCase(a: string, b: string) {
    |a| == |b| && forall i :: 0 <= i < |a| ==> AsciiLower(a[i]) == AsciiLower(b[i])
  }

  /** `str::to_ascii_lowercase`. */
  function ToAsciiLower(s: string): (r: string)
    ensures |r| == |s| && forall i :: 0 <= i < |s| ==> r[i] == AsciiLower(s[i])
  {
    seq(|s|, i requires 0 <= i < |s| => AsciiLower(s[i]))
  }

  /** Ignoring ASCII case is comparing the lower-cased strings, so it is an equivalence. */
  lemma EqIgnoreAsciiCaseIsLowerEq(a: string, b: string)
    ensures EqIgnoreAsciiCase(a, b) <==> ToAsciiLower(a) == ToAsciiLower(b)
  {
    if ToAsciiLower(a) == ToAsciiLower(b) {
      assert |a| == |ToAsciiLower(a)|;
      forall i | 0 <= i < |a|
        ensures AsciiLower(a[i]) == AsciiLower(b[i])
      {
        assert ToAsciiLower(a)[i] == ToAsciiLower(b)[i];
      }
    }
  }

  // ---------------------------------------------------------------------------
  // Lookup by name

  /** The test of the lookup loops: exact name, or name ignoring ASCII case. */
  function NameMatches(input: string, ignoreCase: bool): Theme -> bool {
    (t: Theme) => if ignoreCase then EqIgnoreAsciiCase(t.name, input) else t.name == input
  }

  /** What `TryFrom<String>` and `FromStr` return: the first theme whose name matches ignoring ASCII case. */
  function ParseName(all: seq<Theme>, s: string): (r: Result<ThemeValueEnum, FromStringError>)
    ensures r.Ok? <==> exists i :: 0 <= i < |all| && EqIgnoreAsciiCase(all[i].name, s)
    ensures r.Ok? ==> r.value.theme in all && EqIgnoreAsciiCase(r.value.theme.name, s)
    ensures r.Ok? ==> forall i :: 0 <= i < |all| && all[i] != r.value.theme ==>
                        EqIgnoreAsciiCase(all[i].name, s) ==> FirstWhere(all, NameMatches(s, true)) < i
    ensures r.Err? ==> r.error == FromStringError(s)
  {
    var k := FirstWhere(all, NameMatches(s, true));
    if k < |all| then Ok(ThemeValueEnum(all[k])) else Err(FromStringError(s))
  }

  /** `TryFrom<String>` and `FromStr`: the loop over `Theme::ALL` with early return. */
  method TryFromString(all: seq<Theme>, value: string) returns (r: Result<ThemeValueEnum, FromStringError>)
    ensures r == ParseName(all, value)
  {
    for i := 0 to |all|
      invariant forall j :: 0 <= j < i ==> !EqIgnoreAsciiCase(all[j].name, value)
    {
      if EqIgnoreAsciiCase(all[i].name, value) {
        FirstWhereIs(all, NameMatches(value, true), i);
        return Ok(ThemeValueEnum(all[i]));
      }
    }
    FirstWhereIs(all, NameMatches(value, true), |all|);
    return Err(FromStringError(value));
  }

  /** `From<ThemeValueEnum> for String` and `Display`: the theme's name. */
  function Name(v: ThemeValueEnum): string {
    v.theme.name
  }

  /** No two names of `Theme::ALL` differ only in ASCII case. */
  predicate NamesDistinctIgnoringCase(all: seq<Theme>) {
    forall i, j :: 0 <= i < |all| && 0 <= j < |all| && EqIgnoreAsciiCase(all[i].name, all[j].name) ==> i == j
  }

  /** Serialising a listed theme and parsing it back gives the same wrapper. */
  lemma NameRoundTrip(all: seq<Theme>, i: nat)
    requires NamesDistinctIgnoringCase(all) && i < |all|
    ensures ParseName(all, Name(ThemeValueEnum(all[i]))) == Ok(ThemeValueEnum(all[i]))
  {
    var s := all[i].name;
    assert NameMatches(s, true)(all[i]);
    FirstWhereIs(all, NameMatches(s, true), i);
  }

  /** Any spelling of "Dark" that differs only in ASCII case parses to a wrapper equal to the default. */
  lemma DefaultParses(all: seq<Theme>, s: string)
    requires Dark in all && NamesDistinctIgnoringCase(all)
    requires EqIgnoreAsciiCase(s, "Dark")
    ensures ParseName(all, s).Ok? && SameName(ParseName(all, s).value, Default())
  {
    var i :| 0 <= i < |all| && all[i] == Dark;
    EqIgnoreAsciiCaseIsLowerEq(s, "Dark");
    EqIgnoreAsciiCaseIsLowerEq(all[i].name, s);
    var r := ParseName(all, s);
    var j :| 0 <= j < |all| && all[j] == r.value.theme;
    EqIgnoreAsciiCaseIsLowerEq(all[j].name, s);
    EqIgnoreAsciiCaseIsLowerEq(all[j].name, all[i].name);
  }

  // ---------------------------------------------------------------------------
  // TryFrom<Theme>

  /** What `TryFrom<Theme>` returns: the listed theme with the same discriminant, or the input back. */
  function FromTheme(all: seq<Theme>, t: Theme): (r: Result<ThemeValueEnum, Theme>)
    ensures r.Ok? <==> HasDisc(all, Disc, t)
    ensures r.Ok? ==> r.value.theme == Cast(all, Disc, t)
    ensures r.Err? ==> r.error == t
  {
    var k := FirstWhere(all, DiscIs(Disc, Disc(t)));
    if k < |all| then Ok(ThemeValueEnum(all[k]))
    else
      assert !HasDisc(all, Disc, t) by {
        forall j | 0 <= j < |all|
          ensures Disc(all[j]) != Disc(t)
        {
          assert !DiscIs(Disc, Disc(t))(all[j]);
        }
      }
      Err(t)
  }

  /** `TryFrom<Theme>`: the loop comparing discriminants. */
  method TryFromTheme(all: seq<Theme>, value: Theme) returns (r: Result<ThemeValueEnum, Theme>)
    ensures r == FromTheme(all, value)
  {
    for i := 0 to |all|
      invariant forall j :: 0 <= j < i ==> Disc(all[j]) != Disc(value)
    {
      if Disc(all[i]) == Disc(value) {
        FirstWhereIs(all, DiscIs(Disc, Disc(value)), i);
        return Ok(ThemeValueEnum(all[i]));
      }
    }
    FirstWhereIs(all, DiscIs(Disc, Disc(value)), |all|);
    return Err(value);
  }

  /** `Theme::ALL`: built-in themes, each variant once. */
  predicate WellFormedAll(all: seq<Theme>) {
    && (forall i :: 0 <= i < |all| ==> all[i].Builtin?)
    && DiscDistinct(all, Disc)
  }

  /** A listed theme converts to itself; a custom theme is handed back. */
  lemma FromThemeOfListed(all: seq<Theme>, t: Theme)
    requires WellFormedAll(all)
    ensures t in all ==> FromTheme(all, t) == Ok(ThemeValueEnum(t))
    ensures t.Custom? ==> FromTheme(all, t) == Err(t)
  {
    if t in all {
      var i :| 0 <= i < |all| && all[i] == t;
      CastOfMember(all, Disc, i);
    }
  }

  // ---------------------------------------------------------------------------
  // ValueEnum

  /** `value_variants`: every theme of `Theme::ALL`, wrapped, in order. */
  function ValueVariants(all: seq<Theme>): (r: seq<ThemeValueEnum>)
    ensures |r| == |all| && forall i :: 0 <= i < |all| ==> r[i].theme == all[i]
  {
    seq(|all|, i requires 0 <= i < |all| => ThemeValueEnum(all[i]))
  }

  /** What `ValueEnum::from_str` returns. */
  function ValueEnumParse(all: seq<Theme>, input: string, ignoreCase: bool): (r: Result<ThemeValueEnum, string>)
    ensures r.Ok? <==> exists i :: 0 <= i < |all| && NameMatches(input, ignoreCase)(all[i])
    ensures r.Ok? && ignoreCase ==> r.value.theme in all && EqIgnoreAsciiCase(r.value.theme.name, input)
    ensures r.Ok? && !ignoreCase ==> r.value.theme in all && r.value.theme.name == input
    ensures r.Ok? ==> exists k :: 0 <= k < |all| && r.value.theme == all[k] && NameMatches(input, ignoreCase)(all[k])
                               && forall j :: 0 <= j < k ==> !NameMatches(input, ignoreCase)(all[j])
    ensures r.Err? ==> r.error == "could not get iced theme " + input
  {
    var k := FirstWhere(all, NameMatches(input, ignoreCase));
    if k < |all| then Ok(ThemeValueEnum(all[k])) else Err("could not get iced theme " + input)
  }

  /** `ValueEnum::from_str`: the loop over `Theme::ALL`, exact or ignoring ASCII case. */
  method ValueEnumFromStr(all: seq<Theme>, input: string, ignoreCase: bool) returns (r: Result<ThemeValueEnum, string>)
    ensures r == ValueEnumParse(all, input, ignoreCase)
  {
    for i := 0 to |all|
      invariant forall j :: 0 <= j < i ==> !NameMatches(input, ignoreCase)(all[j])
    {
      if ignoreCase {
        if EqIgnoreAsciiCase(all[i].name, input) {
          FirstWhereIs(all, NameMatches(input, ignoreCase), i);
          return Ok(ThemeValueEnum(all[i]));
        }
      } else if all[i].name == input {
        FirstWhereIs(all, NameMatches(input, ignoreCase), i);
        return Ok(ThemeValueEnum(all[i]));
      }
    }
    FirstWhereIs(all, NameMatches(input, ignoreCase), |all|);
    return Err("could not get iced theme " + input);
  }

  /**
   * An exact match is also found ignoring case, and with names distinct
   * ignoring case it is the same theme; ignoring case finds what `FromStr` finds.
   */
  lemma ValueEnumParseModes(all: seq<Theme>, input: string)
    ensures ValueEnumParse(all, input, false).Ok? ==> ValueEnumParse(all, input, true).Ok?
    ensures NamesDistinctIgnoringCase(all) && ValueEnumParse(all, input, false).Ok? ==>
              ValueEnumParse(all, input, true) == ValueEnumParse(all, input, false)
    ensures ValueEnumParse(all, input, true).Ok? <==> ParseName(all, input).Ok?
    ensures ParseName(all, input).Ok? ==> ValueEnumParse(all, input, true).value == ParseName(all, input).value
  {
    if ValueEnumParse(all, input, false).Ok? {
      var i :| 0 <= i < |all| && NameMatches(input, false)(all[i]);
      assert NameMatches(input, true)(all[i]);
      if NamesDistinctIgnoringCase(all) {
        var a := FirstWhere(all, NameMatches(input, true));
        var b := FirstWhere(all, NameMatches(input, false));
        EqIgnoreAsciiCaseIsLowerEq(all[a].name, input);
        EqIgnoreAsciiCaseIsLowerEq(all[b].name, input);
        EqIgnoreAsciiCaseIsLowerEq(all[a].name, all[b].name);
      }
    }
  }

  /** `Default`: the Dark theme. */
  function Default(): (r: ThemeValueEnum)
    ensures Name(r) == "Dark"
  {
    ThemeValueEnum(Dark)
  }

  /**
   * `partial_variants` is `value_variants` compared by name, so with distinct
   * names the default `partial_cycle_next`/`prev` step cyclically through `Theme::ALL`.
   */
  lemma ThemeCycle(all: seq<Theme>, i: nat)
    requires i < |all|
    requires forall a, b :: 0 <= a < |all| && 0 <= b < |all| && all[a].name == all[b].name ==> a == b
    ensures NextOf(ValueVariants(all), SameName, ThemeValueEnum(all[i])) == ThemeValueEnum(all[Succ(i, |all|)])
    ensures PrevOf(ValueVariants(all), SameName, ThemeValueEnum(all[i])) == ThemeValueEnum(all[Pred(i, |all|)])
  {
    var vs := ValueVariants(all);
    assert Distinct(vs, SameName);
    NextOfCyclic(vs, SameName, i);
    PrevOfCyclic(vs, SameName, i);
  }
}
