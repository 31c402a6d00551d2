/** The optional value used for Python's `None`-or-value results. */
module Options {

  datatype Option<+T> = None | Some(value: T)
}

/**
 Generic sequence helpers shared by the transcript model: concatenation of
 nested sequences, element-wise mapping, and the split of a sequence into
 maximal runs of neighbours that a relation joins. The last one is the
 common shape of `Document.iter_lang_blocks` (runs of equal language) and of
 `recombine_split_words` (runs of paragraphs continuing a split word).
 */
module Seqs {

  /** Concatenation of a sequence of sequences, in order. */
  function Flatten<T>(xss: seq<seq<T>>): seq<T>
    decreases |xss|
  {
    if |xss| == 0 then [] else xss[0] + Flatten(xss[1..])
  }

  lemma {:induction false} FlattenAppend<T>(a: seq<seq<T>>, b: seq<seq<T>>)
    ensures Flatten(a + b) == Flatten(a) + Flatten(b)
    decreases |a|
  {
    if |a| == 0 {
      assert a + b == b;
    } else {
      assert (a + b)[1..] == a[1..] + b;
      FlattenAppend(a[1..], b);
    }
  }

  /** `f` applied to every element, order kept. */
  function MapSeq<A, B>(f: A -> B, xs: seq<A>): (r: seq<B>)
    ensures |r| == |xs|
    ensures forall i :: 0 <= i < |xs| ==> r[i] == f(xs[i])
  {
    seq(|xs|, i requires 0 <= i < |xs| => f(xs[i]))
  }

  lemma MapSeqAppend<A, B>(f: A -> B, a: seq<A>, b: seq<A>)
    ensures MapSeq(f, a + b) == MapSeq(f, a) + MapSeq(f, b)
  {
    assert forall i :: 0 <= i < |a + b| ==> MapSeq(f, a + b)[i] == (MapSeq(f, a) + MapSeq(f, b))[i];
  }

  lemma AppendAssoc<T>(a: seq<T>, b: seq<T>, c: seq<T>)
    ensures a + b + c == a + (b + c)
  {
  }

  /** The last element of a non-empty sequence. */
  function Last<T>(xs: seq<T>): T
    requires |xs| > 0
  {
    xs[|xs| - 1]
  }

  /**
   Splits `xs` into maximal runs of consecutive elements: a new run starts at
   position i > 0 exactly when `joins(xs[i-1], xs[i])` is false.
   */
  function Split<T>(xs: seq<T>, joins: (T, T) -> bool): (r: seq<seq<T>>)
    ensures |r| == 0 <==> |xs| == 0
    ensures |r| <= |xs|
    ensures forall k :: 0 <= k < |r| ==> |r[k]| > 0
    ensures |r| > 0 ==> r[0][0] == xs[0]
    decreases |xs|
  {
    if |xs| == 0 then []
    else
      var rest := Split(xs[1..], joins);
      if |rest| > 0 && joins(xs[0], xs[1]) then [[xs[0]] + rest[0]] + rest[1..]
      else [[xs[0]]] + rest
  }

  /** Number of positions i > 0 at which a new run starts. */
  function Breaks<T>(xs: seq<T>, joins: (T, T) -> bool): nat
    decreases |xs|
  {
    if |xs| < 2 then 0
    else (if joins(xs[0], xs[1]) then 0 else 1) + Breaks(xs[1..], joins)
  }

  /** The runs, read in order, are the input again. */
  lemma {:induction false} SplitFlatten<T>(xs: seq<T>, joins: (T, T) -> bool)
    ensures Flatten(Split(xs, joins)) == xs
    decreases |xs|
  {
    if |xs| > 0 {
      var rest := Split(xs[1..], joins);
      SplitFlatten(xs[1..], joins);
      if |rest| > 0 && joins(xs[0], xs[1]) {
        calc {
          Flatten(Split(xs, joins));
          ([xs[0]] + rest[0]) + Flatten(rest[1..]);
          [xs[0]] + (rest[0] + Flatten(rest[1..]));
          [xs[0]] + Flatten(rest);
          xs;
        }
      } else {
        assert Flatten(Split(xs, joins)) == [xs[0]] + Flatten(rest);
      }
    }
  }

  /** One run per break, plus the first. */
  lemma {:induction false} SplitCount<T>(xs: seq<T>, joins: (T, T) -> bool)
    ensures |Split(xs, joins)| == if |xs| == 0 then 0 else 1 + Breaks(xs, joins)
    decreases |xs|
  {
    if |xs| > 0 {
      SplitCount(xs[1..], joins);
    }
  }

  /** Neighbours inside one run are joined. */
  lemma {:induction false} SplitJoinsWithin<T>(xs: seq<T>, joins: (T, T) -> bool)
    ensures forall k, j :: 0 <= k < |Split(xs, joins)| && 0 < j < |Split(xs, joins)[k]| ==>
              joins(Split(xs, joins)[k][j - 1], Split(xs, joins)[k][j])
    decreases |xs|
  {
    if |xs| > 0 {
      SplitJoinsWithin(xs[1..], joins);
    }
  }

  /** The last element of a run and the first of the next one are not joined. */
  lemma {:induction false} SplitBreaksBetween<T>(xs: seq<T>, joins: (T, T) -> bool)
    ensures forall k :: 0 < k < |Split(xs, joins)| ==>
              !joins(Last(Split(xs, joins)[k - 1]), Split(xs, joins)[k][0])
    decreases |xs|
  {
    if |xs| > 0 {
      SplitBreaksBetween(xs[1..], joins);
    }
  }
}
