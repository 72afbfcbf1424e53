/**
  De-duplication in first-occurrence order, the behaviour of spreading a
  JavaScript `Set` built from a list back into an array.

  `Dedup` walks the list from the front, remembering what it has seen.
  `FirstOccurrences` is an independent reference definition built from the
  back: position `i` is kept exactly when its value does not occur before
  `i`. `DedupIsFirstOccurrences` proves they agree.
*/
module Distinct {

  ghost predicate NoDuplicates<T>(xs: seq<T>) {
    forall i, j :: 0 <= i < j < |xs| ==> xs[i] != xs[j]
  }

  /** The elements of `xs` not in `seen`, each once, in first-occurrence order. */
  function DedupFrom<T(==,!new)>(xs: seq<T>, seen: set<T>): (r: seq<T>)
    ensures NoDuplicates(r)
    ensures forall x :: x in r <==> x in xs && x !in seen
    ensures |r| <= |xs|
  {
    if |xs| == 0 then []
    else if xs[0] in seen then DedupFrom(xs[1..], seen)
    else
      var rest := DedupFrom(xs[1..], seen + {xs[0]});
      assert forall j :: 0 <= j < |rest| ==> rest[j] != xs[0];
      [xs[0]] + rest
  }

  /** `[...new Set(xs)]`: each distinct element of `xs` once, in the order
      of its first occurrence. */
  function Dedup<T(==,!new)>(xs: seq<T>): (r: seq<T>)
    ensures NoDuplicates(r)
    ensures forall x :: x in r <==> x in xs
    ensures |r| <= |xs|
  {
    DedupFrom(xs, {})
  }

  /** Reference: keep `xs[i]` exactly when it does not occur in `xs[..i]`. */
  ghost function FirstOccurrences<T(!new)>(xs: seq<T>): seq<T> {
    if |xs| == 0 then []
    else
      var init, last := xs[..|xs| - 1], xs[|xs| - 1];
      FirstOccurrences(init) + (if last in init then [] else [last])
  }

  /** Appending one element to the input appends it to the output exactly
      when it is new. */
  lemma {:induction false} DedupFromSnoc<T(!new)>(xs: seq<T>, x: T, seen: set<T>)
    ensures DedupFrom(xs + [x], seen)
         == DedupFrom(xs, seen) + (if x in seen || x in xs then [] else [x])
    decreases |xs|
  {
    if |xs| == 0 {
      assert xs + [x] == [x];
    } else {
      var y, ys := xs[0], xs[1..];
      assert xs + [x] == [y] + (ys + [x]);
      var tail := if x in seen || x in xs then [] else [x];
      if y in seen {
        DedupFromSnoc(ys, x, seen);
        assert x in seen || x in xs <==> x in seen || x in ys;
      } else {
        var seen' := seen + {y};
        DedupFromSnoc(ys, x, seen');
        assert x in seen' || x in ys <==> x in seen || x in xs;
        calc {
          DedupFrom(xs + [x], seen);
          [y] + DedupFrom(ys + [x], seen');
          [y] + (DedupFrom(ys, seen') + tail);
          ([y] + DedupFrom(ys, seen')) + tail;
          DedupFrom(xs, seen) + tail;
        }
      }
    }
  }

  /** The front-to-back walk keeps exactly the first occurrences. */
  lemma {:induction false} DedupIsFirstOccurrences<T(!new)>(xs: seq<T>)
    ensures Dedup(xs) == FirstOccurrences(xs)
    decreases |xs|
  {
    if |xs| > 0 {
      var init, last := xs[..|xs| - 1], xs[|xs| - 1];
      assert xs == init + [last];
      DedupIsFirstOccurrences(init);
      DedupFromSnoc(init, last, {});
    }
  }

  /** A list that is already duplicate-free, and disjoint from `seen`, is
      left as it is. */
  lemma {:induction false} DedupFromOfDistinct<T(!new)>(xs: seq<T>, seen: set<T>)
    requires NoDuplicates(xs)
    requires forall i :: 0 <= i < |xs| ==> xs[i] !in seen
    ensures DedupFrom(xs, seen) == xs
    decreases |xs|
  {
    if |xs| > 0 {
      var rest, seen' := xs[1..], seen + {xs[0]};
      DistinctTail(xs, seen);
      DedupFromOfDistinct(rest, seen');
      assert xs == [xs[0]] + rest;
    }
  }

  /** The tail of a duplicate-free list is duplicate-free and avoids its
      head as well as anything the whole list avoids. */
  lemma DistinctTail<T>(xs: seq<T>, seen: set<T>)
    requires |xs| > 0 && NoDuplicates(xs)
    requires forall i :: 0 <= i < |xs| ==> xs[i] !in seen
    ensures NoDuplicates(xs[1..])
    ensures forall i :: 0 <= i < |xs[1..]| ==> xs[1..][i] !in seen + {xs[0]}
  {
    var rest := xs[1..];
    forall i, j | 0 <= i < j < |rest| ensures rest[i] != rest[j] {
      assert rest[i] == xs[i + 1] && rest[j] == xs[j + 1];
    }
    forall i | 0 <= i < |rest| ensures rest[i] !in seen + {xs[0]} {
      assert rest[i] == xs[i + 1];
    }
  }

  lemma DedupOfDistinct<T(!new)>(xs: seq<T>)
    requires NoDuplicates(xs)
    ensures Dedup(xs) == xs
  {
    DedupFromOfDistinct(xs, {});
  }

  /** De-duplicating twice is de-duplicating once. */
  lemma DedupIdempotent<T(!new)>(xs: seq<T>)
    ensures Dedup(Dedup(xs)) == Dedup(xs)
  {
    DedupOfDistinct(Dedup(xs));
  }
}
