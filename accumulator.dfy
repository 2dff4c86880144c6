/**
 The barcode accumulator of the scanner: each scan tick hands the decoder's
 strings to a state updater that keeps every previously seen string and
 appends, in decoder order, each decoded string that the previous list does
 not already hold.

 Membership is tested against the previous list only, never against the
 strings queued earlier in the same tick, so a string that is new and occurs
 k times in one tick is appended k times.
 */
module BarcodeAccumulator {

  /** `prefix` is an unchanged prefix of `s`. */
  predicate IsPrefix(prefix: seq<string>, s: seq<string>)
  {
    |prefix| <= |s| && s[..|prefix|] == prefix
  }

  lemma PrefixTransitive(a: seq<string>, b: seq<string>, c: seq<string>)
    requires IsPrefix(a, b) && IsPrefix(b, c)
    ensures IsPrefix(a, c)
  {
    assert c[..|a|] == c[..|b|][..|a|];
  }

  /** No string occurs twice in `s`. */
  predicate Distinct(s: seq<string>)
  {
    forall i, j :: 0 <= i < j < |s| ==> s[i] != s[j]
  }

  /** The decoded strings that `prev` does not hold, in decoder order, with
      their repetitions: the list the updater pushes into `newBarcodes`. */
  function Unseen(prev: seq<string>, decoded: seq<string>): (r: seq<string>)
    ensures |r| <= |decoded|
    ensures forall x :: x in r <==> x in decoded && x !in prev
  {
    if decoded == [] then []
    else (if decoded[0] in prev then [] else [decoded[0]]) + Unseen(prev, decoded[1..])
  }

  /** The state the updater returns: the previous list followed by the unseen
      decoded strings. */
  function Merged(prev: seq<string>, decoded: seq<string>): (r: seq<string>)
    ensures IsPrefix(prev, r)
    ensures |r| <= |prev| + |decoded|
    ensures forall x :: x in r <==> x in prev || x in decoded
  {
    prev + Unseen(prev, decoded)
  }

  /** Splitting one tick's results in two splits the unseen strings the same
      way: the appended tail keeps the decoder's order. */
  lemma {:induction false} UnseenAppend(prev: seq<string>, a: seq<string>, b: seq<string>)
    ensures Unseen(prev, a + b) == Unseen(prev, a) + Unseen(prev, b)
  {
    if a == [] {
      assert a + b == b;
    } else {
      assert (a + b)[0] == a[0];
      assert (a + b)[1..] == a[1..] + b;
      UnseenAppend(prev, a[1..], b);
    }
  }

  /** A single decoded string is appended exactly when the previous list
      lacks it. */
  lemma UnseenSingle(prev: seq<string>, x: string)
    ensures Unseen(prev, [x]) == if x in prev then [] else [x]
  {
    assert [x][1..] == [];
  }

  /** Multiplicities: a string already known is never appended again, and a
      new string is appended as often as the decoder reported it in the tick
      (there is no deduplication within one tick). */
  lemma {:induction false} UnseenMultiplicity(prev: seq<string>, decoded: seq<string>, x: string)
    ensures multiset(Unseen(prev, decoded))[x] == if x in prev then 0 else multiset(decoded)[x]
  {
    if decoded != [] {
      UnseenMultiplicity(prev, decoded[1..], x);
      assert decoded == [decoded[0]] + decoded[1..];
      assert multiset(decoded) == multiset([decoded[0]]) + multiset(decoded[1..]);
    }
  }

  /** When every decoded string is already known, nothing is appended. */
  lemma {:induction false} UnseenCovered(prev: seq<string>, decoded: seq<string>)
    requires forall x :: x in decoded ==> x in prev
    ensures Unseen(prev, decoded) == []
  {
    if decoded != [] {
      assert decoded[0] in decoded;
      forall x | x in decoded[1..] ensures x in prev {
        assert x in decoded;
      }
      UnseenCovered(prev, decoded[1..]);
    }
  }

  /** The unseen strings of a duplicate-free tick are duplicate-free. */
  lemma {:induction false} UnseenDistinct(prev: seq<string>, decoded: seq<string>)
    requires Distinct(decoded)
    ensures Distinct(Unseen(prev, decoded))
  {
    if decoded != [] {
      var rest := decoded[1..];
      assert Distinct(rest) by {
        forall i, j | 0 <= i < j < |rest| ensures rest[i] != rest[j] {
          assert rest[i] == decoded[i + 1] && rest[j] == decoded[j + 1];
        }
      }
      UnseenDistinct(prev, rest);
      var tail := Unseen(prev, rest);
      var head := if decoded[0] in prev then [] else [decoded[0]];
      assert decoded[0] !in rest by {
        forall k | 0 <= k < |rest| ensures rest[k] != decoded[0] {
          assert rest[k] == decoded[k + 1];
        }
      }
      assert decoded[0] !in tail;
      var r := head + tail;
      forall i, j | 0 <= i < j < |r| ensures r[i] != r[j] {
        if i < |head| {
          assert r[i] == decoded[0] && r[j] == tail[j - |head|];
        } else {
          assert r[i] == tail[i - |head|] && r[j] == tail[j - |head|];
        }
      }
    }
  }

  /** The tick's update never shrinks or reorders the list: the previous
      list is a prefix of the new one, and what follows it is exactly the
      decoded strings the previous list did not hold. */
  lemma MergedExtends(prev: seq<string>, decoded: seq<string>)
    ensures IsPrefix(prev, Merged(prev, decoded))
    ensures forall x :: x in Merged(prev, decoded) <==> x in prev || x in decoded
  {
  }

  /** A tick whose decoder returned nothing leaves the list as it was. */
  lemma MergedEmpty(prev: seq<string>)
    ensures Merged(prev, []) == prev
  {
  }

  /** Absorbing the same results twice in a row gives the same list as
      absorbing them once. */
  lemma {:induction false} MergedIdempotent(prev: seq<string>, decoded: seq<string>)
    ensures Merged(Merged(prev, decoded), decoded) == Merged(prev, decoded)
  {
    var once := Merged(prev, decoded);
    forall x | x in decoded ensures x in once {
      if x !in prev {
        assert x in Unseen(prev, decoded);
      }
    }
    UnseenCovered(once, decoded);
  }

  /** A duplicate-free list absorbing a duplicate-free tick stays
      duplicate-free. */
  lemma {:induction false} MergedDistinct(prev: seq<string>, decoded: seq<string>)
    requires Distinct(prev) && Distinct(decoded)
    ensures Distinct(Merged(prev, decoded))
  {
    var tail := Unseen(prev, decoded);
    UnseenDistinct(prev, decoded);
    var r := prev + tail;
    forall i, j | 0 <= i < j < |r| ensures r[i] != r[j] {
      if j < |prev| {
        assert r[i] == prev[i] && r[j] == prev[j];
      } else if i < |prev| {
        assert r[i] == prev[i] && r[j] == tail[j - |prev|];
        assert r[j] in tail;
      } else {
        assert r[i] == tail[i - |prev|] && r[j] == tail[j - |prev|];
      }
    }
  }

  /** One tick reporting "A", "B", "A" on an empty list appends "A" twice. */
  lemma RepeatWithinTick()
    ensures Merged([], ["A", "B", "A"]) == ["A", "B", "A"]
  {
    var d := ["A", "B", "A"];
    assert d == ["A"] + ["B"] + ["A"];
    UnseenAppend([], ["A"] + ["B"], ["A"]);
    UnseenAppend([], ["A"], ["B"]);
    UnseenSingle([], "A");
    UnseenSingle([], "B");
  }

  /** A tick reporting "A", "B", "B" on ["A"] appends only "B", twice. */
  lemma RepeatWithinTickKnown()
    ensures Merged(["A"], ["A", "B", "B"]) == ["A", "B", "B"]
  {
    var d := ["A", "B", "B"];
    assert d == ["A"] + ["B"] + ["B"];
    UnseenAppend(["A"], ["A"] + ["B"], ["B"]);
    UnseenAppend(["A"], ["A"], ["B"]);
    UnseenSingle(["A"], "A");
    assert "B" !in ["A"] by { assert "B"[0] != "A"[0]; }
    UnseenSingle(["A"], "B");
  }

  /** The updater itself: `newBarcodes` is filled by a loop over the decoded
      strings and the result is the previous list followed by it. */
  method Absorb(prev: seq<string>, decoded: seq<string>) returns (r: seq<string>)
    ensures r == prev + Unseen(prev, decoded)
    ensures IsPrefix(prev, r)
  {
    var newBarcodes: seq<string> := [];
    var i := 0;
    while i < |decoded|
      invariant 0 <= i <= |decoded|
      invariant newBarcodes == Unseen(prev, decoded[..i])
    {
      var barcode := decoded[i];
      UnseenAppend(prev, decoded[..i], [barcode]);
      UnseenSingle(prev, barcode);
      assert decoded[..i + 1] == decoded[..i] + [barcode];
      if barcode !in prev {
        newBarcodes := newBarcodes + [barcode];
      }
      i := i + 1;
    }
    assert decoded[..i] == decoded;
    r := prev + newBarcodes;
  }

  /** The list after a session of applied ticks, starting from the empty
      initial state. It holds exactly the strings some tick reported. */
  function Session(ticks: seq<seq<string>>): (r: seq<string>)
    ensures forall x :: x in r <==> exists k :: 0 <= k < |ticks| && x in ticks[k]
  {
    if ticks == [] then [] else Merged(Session(ticks[..|ticks| - 1]), ticks[|ticks| - 1])
  }

  /** Over any session the list only grows: the list after the first `n`
      ticks is a prefix of the list after all of them. */
  lemma {:induction false} SessionGrows(ticks: seq<seq<string>>, n: nat)
    requires n <= |ticks|
    ensures IsPrefix(Session(ticks[..n]), Session(ticks))
  {
    if n < |ticks| {
      var last := |ticks| - 1;
      assert ticks[..last][..n] == ticks[..n];
      SessionGrows(ticks[..last], n);
      PrefixTransitive(Session(ticks[..n]), Session(ticks[..last]), Session(ticks));
    } else {
      assert ticks[..n] == ticks;
    }
  }

  /** When no tick reports the same string twice, the session's list never
      holds a duplicate. */
  lemma {:induction false} SessionDistinct(ticks: seq<seq<string>>)
    requires forall k :: 0 <= k < |ticks| ==> Distinct(ticks[k])
    ensures Distinct(Session(ticks))
  {
    if ticks != [] {
      var last := |ticks| - 1;
      SessionDistinct(ticks[..last]);
      MergedDistinct(Session(ticks[..last]), ticks[last]);
    }
  }

  /** The component's `barcodes` state together with the scan tick that
      updates it. */
  class Scanner {
    var barcodes: seq<string>
    /** The decoder results the updater has been applied to, oldest first. */
    ghost var applied: seq<seq<string>>

    ghost predicate Valid()
      reads this
    {
      barcodes == Session(applied)
    }

    /** The state starts as an empty list. */
    constructor ()
      ensures Valid() && barcodes == [] && applied == []
    {
      barcodes := [];
      applied := [];
    }

    /** One scan tick. `videoReady` and `canvasReady` stand for the video
        element and the canvas being mounted, and `videoReady` also for the
        video reporting a non-zero frame size (a zero-sized frame makes the
        pixel read throw before the decoder runs, which leaves the list as
        it was, like a missing element). `decoded` is what the decoder
        returned for the captured frame. Without video or canvas the tick
        returns at once; with no results the updater is not called. */
    method Tick(videoReady: bool, canvasReady: bool, decoded: seq<string>)
      requires Valid()
      modifies this
      ensures Valid()
      ensures if videoReady && canvasReady && |decoded| > 0
              then barcodes == Merged(old(barcodes), decoded) && applied == old(applied) + [decoded]
              else barcodes == old(barcodes) && applied == old(applied)
      ensures IsPrefix(old(barcodes), barcodes)
    {
      if !videoReady || !canvasReady {
        return;
      }
      if |decoded| > 0 {
        barcodes := Absorb(barcodes, decoded);
        applied := applied + [decoded];
        assert applied[..|applied| - 1] == old(applied);
      }
    }
  }
}
