/**
 * The reflect crate's `UnknownVariant` error and the behaviour its tests pin
 * down for the derived impls on `VariantsTestEnum` and the proxy getters of
 * `OptDefaultTestStruct`: a concrete instance of the contracts in `Traits`.
 */
module Reflect {
  import opened Wrappers
  import opened Traits

  /** The error of a derived `FromStr` for a name no variant has. */
  datatype UnknownVariant = UnknownVariant

  /** `Display` of `UnknownVariant`. */
  function UnknownVariantMessage(e: UnknownVariant): string {
    "no variant with given name available"
  }

  datatype VariantsTestEnum = First | Second | Third | Fourth

  /** `Variants::VARIANTS`. */
  const Variants: seq<VariantsTestEnum> := [First, Second, Third, Fourth]

  /** `Variants::index_of`: where the value sits in `VARIANTS`, as the trait's safety contract demands. */
  function IndexOf(v: VariantsTestEnum): (i: nat)
    ensures i < |Variants| && Variants[i] == v
  {
    match v
    case First => 0
    case Second => 1
    case Third => 2
    case Fourth => 3
  }

  /** `mem::discriminant` of a field-less enum: the variant itself. */
  function Discriminant(v: VariantsTestEnum): VariantsTestEnum {
    v
  }

  /** Derived `Cycle::cycle_next`. */
  function CycleNext(v: VariantsTestEnum): (r: VariantsTestEnum)
    ensures r == Variants[Succ(IndexOf(v), |Variants|)]
  {
    match v
    case First => Second
    case Second => Third
    case Third => Fourth
    case Fourth => First
  }

  /** Derived `Cycle::cycle_prev`. */
  function CyclePrev(v: VariantsTestEnum): (r: VariantsTestEnum)
    ensures r == Variants[Pred(IndexOf(v), |Variants|)]
  {
    match v
    case First => Fourth
    case Second => First
    case Third => Second
    case Fourth => Third
  }

  /** The names `as_str` gives, in the order of `VARIANTS`. */
  const Names: seq<string> := ["First", "Second", "3:rd", "4"]

  /** Derived `AsStr::as_str`, with the `as_str` overrides of `Third` and `Fourth`. */
  function AsStr(v: VariantsTestEnum): (r: string)
    ensures r == Names[IndexOf(v)]
  {
    match v
    case First => "First"
    case Second => "Second"
    case Third => "3:rd"
    case Fourth => "4"
  }

  /** Derived `FromStr`: the variant whose `as_str` is the input. */
  function FromStr(s: string): (r: Result<VariantsTestEnum, UnknownVariant>)
    ensures forall v: VariantsTestEnum :: r == Ok(v) <==> AsStr(v) == s
    ensures r.Err? ==> r.error == UnknownVariant
  {
    if s == "First" then Ok(First)
    else if s == "Second" then Ok(Second)
    else if s == "3:rd" then Ok(Third)
    else if s == "4" then Ok(Fourth)
    else Err(UnknownVariant)
  }

  /** `from_str ∘ as_str` is the identity, and a name that is no variant's is refused. */
  lemma FromStrAsStr(v: VariantsTestEnum)
    ensures FromStr(AsStr(v)) == Ok(v)
    ensures FromStr("abc") == Err(UnknownVariant)
  {
    assert "abc"[0] == 'a';
  }

  /** The derived `Variants` impl meets its safety contract: every variant listed, each once. */
  lemma VariantsContract()
    ensures DiscDistinct(Variants, Discriminant)
    ensures forall v: VariantsTestEnum :: v in Variants
  {
    forall v: VariantsTestEnum
      ensures v in Variants
    {
      assert Variants[IndexOf(v)] == v;
    }
  }

  /** The derived `Cycle` impl meets its safety contract: the cyclic neighbours in `VARIANTS`. */
  lemma CycleContractHolds()
    ensures CycleContract(Variants, CycleNext, CyclePrev)
  {
    forall i | 0 <= i < |Variants|
      ensures CycleNext(Variants[i]) == Variants[Succ(i, |Variants|)]
      ensures CyclePrev(Variants[i]) == Variants[Pred(i, |Variants|)]
    {
      assert IndexOf(Variants[i]) == i;
    }
  }

  /** The blanket `PartialVariants` on `VariantsTestEnum` steps as `Cycle` does, and as the default loops would. */
  lemma PartialCycleOfTestEnum(v: VariantsTestEnum)
    ensures HasDisc(Variants, Discriminant, CycleNext(v)) && HasDisc(Variants, Discriminant, CyclePrev(v))
    ensures Cast(Variants, Discriminant, CycleNext(v)) == CycleNext(v) == NextOf(Variants, Eq, v)
    ensures Cast(Variants, Discriminant, CyclePrev(v)) == CyclePrev(v) == PrevOf(Variants, Eq, v)
  {
    var i := IndexOf(v);
    VariantsContract();
    CycleContractHolds();
    BlanketIsDefault(Variants, Discriminant, CycleNext, CyclePrev, i);
    CastOfMember(Variants, Discriminant, Succ(i, |Variants|));
    CastOfMember(Variants, Discriminant, Pred(i, |Variants|));
  }

  // ---------------------------------------------------------------------------
  // OptDefaultTestStruct and its proxy

  type i32 = x: int | -0x8000_0000 <= x < 0x8000_0000
  type u32 = x: int | 0 <= x < 0x1_0000_0000
  type u8 = x: int | 0 <= x < 0x100

  datatype OptDefaultTestStruct = OptDefaultTestStruct(
    first: Option<string>,
    second: Option<i32>,
    third: u32,
    fourth: Result<u8, ()>)

  /** `first`: the string, or the default empty string. */
  function ProxyFirst(s: OptDefaultTestStruct): (r: string)
    ensures s.first.Some? ==> r == s.first.value
    ensures s.first.None? ==> r == ""
  {
    match s.first
    case Some(x) => x
    case None => ""
  }

  /** `second`: the number, or the declared default 5. */
  function ProxySecond(s: OptDefaultTestStruct): (r: i32)
    ensures s.second.Some? ==> r == s.second.value
    ensures s.second.None? ==> r == 5
  {
    match s.second
    case Some(x) => x
    case None => 5
  }

  /** `third`: marked `no_option`, passed through. */
  function ProxyThird(s: OptDefaultTestStruct): (r: u32)
    ensures r == s.third
  {
    s.third
  }

  /** `fourth`: `Ok` is the present pattern; an `Err` gives the default 0. */
  function ProxyFourth(s: OptDefaultTestStruct): (r: u8)
    ensures s.fourth.Ok? ==> r == s.fourth.value
    ensures s.fourth.Err? ==> r == 0
  {
    match s.fourth
    case Ok(x) => x
    case Err(_) => 0
  }

  /** A struct with every optional field absent reads the defaults: "", the declared 5, `third` itself, and 0. */
  lemma ProxyDefaults(third: u32)
    ensures var s := OptDefaultTestStruct(None, None, third, Err(()));
            ProxyFirst(s) == "" && ProxySecond(s) == 5 && ProxyThird(s) == third && ProxyFourth(s) == 0
  {
  }

  /** A struct with every optional field present reads the stored values through the proxy. */
  lemma ProxyPresent(first: string, second: i32, third: u32, fourth: u8)
    ensures var s := OptDefaultTestStruct(Some(first), Some(second), third, Ok(fourth));
            ProxyFirst(s) == first && ProxySecond(s) == second && ProxyThird(s) == third && ProxyFourth(s) == fourth
  {
  }

  /** The two fixtures of the crate's tests: all defaults with `third` 7, and all set to "Hello", 53, 9, 15. */
  lemma ProxyFixtures()
    ensures var d := OptDefaultTestStruct(None, None, 7, Err(()));
            ProxyFirst(d) == "" && ProxySecond(d) == 5 && ProxyThird(d) == 7 && ProxyFourth(d) == 0
    ensures var s := OptDefaultTestStruct(Some("Hello"), Some(53), 9, Ok(15));
            ProxyFirst(s) == "Hello" && ProxySecond(s) == 53 && ProxyThird(s) == 9 && ProxyFourth(s) == 15
  {
    ProxyDefaults(7);
    ProxyPresent("Hello", 53, 9, 15);
  }
}
