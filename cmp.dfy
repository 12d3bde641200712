/**
 * Rust's `core::cmp::Ordering` and the standard orders the program relies on:
 * `bool` (false before true), `char` (by code point, which is also the byte order of UTF-8,
 * so `String` comparison is `StrCmp`), and the lexicographic order of slices.
 */
module Cmp {
  import opened Wrappers

  datatype Ordering = Less | Equal | Greater {

    /** `Ordering::reverse` */
    function Reverse(): (r: Ordering)
      ensures r == Less <==> this == Greater
      ensures r == Equal <==> this == Equal
    {
      match this
      case Less => Greater
      case Equal => Equal
      case Greater => Less
    }

    /** `Ordering::then`: this ordering unless it is `Equal`, in which case `next`. */
    function Then(next: Ordering): Ordering
    {
      if this == Equal then next else this
    }
  }

  function BoolCmp(x: bool, y: bool): (r: Ordering)
    ensures r == Less <==> !x && y
    ensures r == Equal <==> x == y
    ensures r == Greater <==> x && !y
  {
    if x == y then Equal else if !x then Less else Greater
  }

  function CharCmp(x: char, y: char): (r: Ordering)
    ensures r == Less <==> x < y
    ensures r == Equal <==> x == y
    ensures r == Greater <==> y < x
  {
    if x < y then Less else if x == y then Equal else Greater
  }

  /**
   * `<[T] as Ord>::cmp`: the first pair of elements that differs decides;
   * when one sequence is a prefix of the other, the shorter one comes first.
   */
  function LexCmp<T>(a: seq<T>, b: seq<T>, cmp: (T, T) -> Ordering): Ordering
    decreases |a|
  {
    if a == [] then (if b == [] then Equal else Less)
    else if b == [] then Greater
    else match cmp(a[0], b[0])
      case Equal => LexCmp(a[1..], b[1..], cmp)
      case other => other
  }

  /** `<[T] as PartialOrd>::partial_cmp`, written over the elements' `partial_cmp`. */
  function LexPartialCmp<T>(a: seq<T>, b: seq<T>, pcmp: (T, T) -> Option<Ordering>): Option<Ordering>
    decreases |a|
  {
    if a == [] then Some(if b == [] then Equal else Less)
    else if b == [] then Some(Greater)
    else match pcmp(a[0], b[0])
      case Some(Equal) => LexPartialCmp(a[1..], b[1..], pcmp)
      case other => other
  }

  /** `<String as Ord>::cmp` */
  function StrCmp(a: string, b: string): Ordering
  {
    LexCmp(a, b, CharCmp)
  }

  /** `<String as PartialOrd>::partial_cmp`, which the standard library defines as `Some(cmp)`. */
  function StrPartialCmp(a: string, b: string): Option<Ordering>
  {
    Some(StrCmp(a, b))
  }

  /** `<bool as PartialOrd>::partial_cmp`, likewise total. */
  function BoolPartialCmp(x: bool, y: bool): Option<Ordering>
  {
    Some(BoolCmp(x, y))
  }

  /** Lexicographic "less than" on strings, stated without recursion. */
  predicate StrLess(a: string, b: string)
  {
    (|a| < |b| && a == b[..|a|])
    || exists k :: 0 <= k < |a| && k < |b| && a[..k] == b[..k] && a[k] < b[k]
  }

  /** The lexicographic order is built from an element order that is consistent when reversed. */
  lemma {:induction false} LexCmpReverse<T>(a: seq<T>, b: seq<T>, cmp: (T, T) -> Ordering)
    requires forall x, y :: cmp(x, y) == cmp(y, x).Reverse()
    ensures LexCmp(a, b, cmp) == LexCmp(b, a, cmp).Reverse()
    decreases |a|
  {
    if a != [] && b != [] {
      assert cmp(a[0], b[0]) == cmp(b[0], a[0]).Reverse();
      LexCmpReverse(a[1..], b[1..], cmp);
    }
  }

  /** When the element order is `Equal` exactly on equal elements, so is the lexicographic order. */
  lemma {:induction false} LexCmpEqualIff<T>(a: seq<T>, b: seq<T>, cmp: (T, T) -> Ordering)
    requires forall x, y :: cmp(x, y) == Equal <==> x == y
    ensures LexCmp(a, b, cmp) == Equal <==> a == b
    decreases |a|
  {
    if a != [] && b != [] {
      LexCmpEqualIff(a[1..], b[1..], cmp);
      assert a == [a[0]] + a[1..] && b == [b[0]] + b[1..];
    }
  }

  /** `partial_cmp` on slices agrees with `cmp` whenever it does so on the elements. */
  lemma {:induction false} LexPartialCmpAgrees<T>(a: seq<T>, b: seq<T>, cmp: (T, T) -> Ordering,
                                                  pcmp: (T, T) -> Option<Ordering>)
    requires forall x, y :: pcmp(x, y) == Some(cmp(x, y))
    ensures LexPartialCmp(a, b, pcmp) == Some(LexCmp(a, b, cmp))
    decreases |a|
  {
    if a != [] && b != [] {
      assert pcmp(a[0], b[0]) == Some(cmp(a[0], b[0]));
      LexPartialCmpAgrees(a[1..], b[1..], cmp, pcmp);
    }
  }

  lemma StrCmpReverse(a: string, b: string)
    ensures StrCmp(a, b) == StrCmp(b, a).Reverse()
  {
    LexCmpReverse(a, b, CharCmp);
  }

  lemma StrCmpEqualIff(a: string, b: string)
    ensures StrCmp(a, b) == Equal <==> a == b
  {
    LexCmpEqualIff(a, b, CharCmp);
  }

  /** `StrCmp` says `Less` exactly when `a` is lexicographically smaller than `b`. */
  lemma {:induction false} StrCmpLessIff(a: string, b: string)
    ensures StrCmp(a, b) == Less <==> StrLess(a, b)
    decreases |a|
  {
    if a == [] {
      if b != [] { assert a == b[..0]; }
    } else if b == [] {
      assert !StrLess(a, b);
    } else if a[0] < b[0] {
      assert a[..0] == b[..0];
    } else if a[0] > b[0] {
      forall k | 0 < k <= |a| && k <= |b| ensures a[..k] != b[..k] {
        assert a[..k][0] == a[0] && b[..k][0] == b[0];
      }
      assert a[..|a|] == a;
    } else {
      StrCmpLessIff(a[1..], b[1..]);
      assert StrCmp(a, b) == StrCmp(a[1..], b[1..]);
      StrLessTail(a, b);
    }
  }

  /** Strings with the same first character compare as their tails do. */
  lemma StrLessTail(a: string, b: string)
    requires a != [] && b != [] && a[0] == b[0]
    ensures StrLess(a, b) <==> StrLess(a[1..], b[1..])
  {
    var a', b' := a[1..], b[1..];
    if StrLess(a', b') {
      if |a'| < |b'| && a' == b'[..|a'|] {
        assert a == [a[0]] + a' && b[..|a|] == [b[0]] + b'[..|a'|];
      } else {
        var k :| 0 <= k < |a'| && k < |b'| && a'[..k] == b'[..k] && a'[k] < b'[k];
        assert a[..k + 1] == [a[0]] + a'[..k] && b[..k + 1] == [b[0]] + b'[..k];
        assert a[k + 1] == a'[k] && b[k + 1] == b'[k];
      }
    }
    if StrLess(a, b) {
      if |a| < |b| && a == b[..|a|] {
        assert a' == b'[..|a'|];
      } else {
        var k :| 0 <= k < |a| && k < |b| && a[..k] == b[..k] && a[k] < b[k];
        assert k > 0;
        assert a'[..k - 1] == a[..k][1..] && b'[..k - 1] == b[..k][1..];
        assert a'[k - 1] == a[k] && b'[k - 1] == b[k];
      }
    }
  }

  /** The strict string order is transitive. */
  lemma {:induction false} StrCmpTransitive(a: string, b: string, c: string)
    requires StrCmp(a, b) == Less && StrCmp(b, c) == Less
    ensures StrCmp(a, c) == Less
    decreases |a|
  {
    if a != [] && b != [] && c != [] && a[0] == b[0] && b[0] == c[0] {
      StrCmpTransitive(a[1..], b[1..], c[1..]);
    }
  }
}
