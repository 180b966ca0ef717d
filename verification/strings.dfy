/** Sequence-of-string helpers used by several components: Swift's
    `joined(separator:)` and plain concatenation of a list of strings. */
module Strings {

  /** `ss.joined(separator: sep)`: the elements with `sep` between
      neighbours; the empty list joins to "". */
  function Join(ss: seq<string>, sep: string): string
  {
    if |ss| == 0 then ""
    else if |ss| == 1 then ss[0]
    else ss[0] + sep + Join(ss[1..], sep)
  }

  /** The elements of `ss` concatenated with nothing between them: the
      characters of a list of strings, or the lines of a list of blocks. */
  function Concat<T>(ss: seq<seq<T>>): seq<T>
  {
    if |ss| == 0 then [] else ss[0] + Concat(ss[1..])
  }

  /** Joining two non-empty lists is joining each and putting one
      separator between the two results. */
  lemma {:induction false} JoinAppend(a: seq<string>, b: seq<string>, sep: string)
    requires |a| > 0 && |b| > 0
    ensures Join(a + b, sep) == Join(a, sep) + sep + Join(b, sep)
  {
    if |a| == 1 {
      assert (a + b)[1..] == b;
    } else {
      assert (a + b)[1..] == a[1..] + b;
      JoinAppend(a[1..], b, sep);
    }
  }

  /** Replacing a run of elements by their own join, as a nested call that
      returns an already-joined block does, does not change the result. */
  lemma JoinSplice(a: seq<string>, block: seq<string>, rest: seq<string>, sep: string)
    requires |a| > 0 && |block| > 0
    ensures Join(a + [Join(block, sep)] + rest, sep) == Join(a + block + rest, sep)
  {
    if |rest| == 0 {
      assert a + [Join(block, sep)] + rest == a + [Join(block, sep)];
      assert a + block + rest == a + block;
      JoinAppend(a, [Join(block, sep)], sep);
      JoinAppend(a, block, sep);
    } else {
      assert a + [Join(block, sep)] + rest == a + ([Join(block, sep)] + rest);
      assert a + block + rest == a + (block + rest);
      JoinAppend(a, [Join(block, sep)] + rest, sep);
      JoinAppend([Join(block, sep)], rest, sep);
      JoinAppend(a, block + rest, sep);
      JoinAppend(block, rest, sep);
    }
  }

  /** Concatenation distributes over appending lists. */
  lemma {:induction false} ConcatAppend<T>(a: seq<seq<T>>, b: seq<seq<T>>)
    ensures Concat(a + b) == Concat(a) + Concat(b)
  {
    if |a| == 0 {
      assert a + b == b;
    } else {
      assert (a + b)[1..] == a[1..] + b;
      ConcatAppend(a[1..], b);
    }
  }

  lemma ConcatOne<T>(x: seq<T>)
    ensures Concat([x]) == x
  {
  }

  /** Appending one element appends its text. */
  lemma ConcatSnoc<T>(ss: seq<seq<T>>, x: seq<T>)
    ensures Concat(ss + [x]) == Concat(ss) + x
  {
    ConcatAppend(ss, [x]);
    ConcatOne(x);
  }
}
