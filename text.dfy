/** String helpers that follow Rust's `str` methods: `starts_with` and `split` on a character predicate. */
module Text {

  /** `s.starts_with(prefix)` */
  predicate StartsWith(s: string, prefix: string)
  {
    |prefix| <= |s| && s[..|prefix|] == prefix
  }

  /** No character of `s` is a separator. */
  predicate NoSeparator(s: string, isSep: char -> bool)
  {
    forall k :: 0 <= k < |s| ==> !isSep(s[k])
  }

  /**
   * The pieces of `s` between separators, as `s.split(isSep)` yields them:
   * there is always at least one piece (the empty string gives one empty piece),
   * no piece holds a separator, and the first piece is the text up to the first separator.
   */
  function Split(s: string, isSep: char -> bool): (pieces: seq<string>)
    ensures |pieces| >= 1
    ensures forall i :: 0 <= i < |pieces| ==> NoSeparator(pieces[i], isSep)
    ensures pieces[0] <= s
    ensures |pieces[0]| < |s| ==> isSep(s[|pieces[0]|])
    ensures |pieces| == 1 <==> NoSeparator(s, isSep)
    decreases |s|
  {
    if s == [] then [[]]
    else
      var rest := Split(s[1..], isSep);
      if isSep(s[0]) then [[]] + rest
      else [[s[0]] + rest[0]] + rest[1..]
  }

  /** After the first piece and its separator, the remaining pieces are the split of the remaining text. */
  lemma {:induction false} SplitRest(s: string, isSep: char -> bool)
    requires |Split(s, isSep)| >= 2
    ensures |Split(s, isSep)[0]| < |s|
    ensures Split(s, isSep)[1..] == Split(s[|Split(s, isSep)[0]| + 1..], isSep)
    decreases |s|
  {
    if !isSep(s[0]) {
      var rest := Split(s[1..], isSep);
      SplitRest(s[1..], isSep);
      assert s[1..][|rest[0]| + 1..] == s[|rest[0]| + 2..];
    }
  }

  /** A separator-free head followed by nothing or by a separator is exactly the first piece. */
  lemma {:induction false} SplitFirstPiece(head: string, tail: string, isSep: char -> bool)
    requires NoSeparator(head, isSep)
    requires tail == [] || isSep(tail[0])
    ensures Split(head + tail, isSep)[0] == head
    decreases |head|
  {
    if head != [] {
      assert (head + tail)[1..] == head[1..] + tail;
      SplitFirstPiece(head[1..], tail, isSep);
    } else {
      assert head + tail == tail;
    }
  }

  /** Splitting at the first separator: a separator-free head becomes the first piece. */
  lemma {:induction false} SplitAtFirst(head: string, sep: char, rest: string, isSep: char -> bool)
    requires NoSeparator(head, isSep) && isSep(sep)
    ensures Split(head + [sep] + rest, isSep) == [head] + Split(rest, isSep)
    decreases |head|
  {
    if head == [] {
      assert (head + [sep] + rest)[1..] == rest;
    } else {
      var s := head + [sep] + rest;
      assert s[0] == head[0] && !isSep(s[0]);
      assert s[1..] == head[1..] + [sep] + rest;
      SplitAtFirst(head[1..], sep, rest, isSep);
      assert [head[0]] + head[1..] == head;
    }
  }
}
