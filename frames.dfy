/** Partitioning an array into contiguous frames of a fixed length (frames.ts). */
module Frames {
  import opened Outcomes

  /** The two optional flags of `toFrames`; an absent flag is `false`. */
  datatype Options = Options(keepTrailing: bool, throwIfTrailing: bool)

  /** The two errors `toFrames` throws before building any frame. */
  datatype FrameError =
    | TrailingFrame(length: nat, frameLength: nat)  // throwIfTrailing and a length that is not a multiple
    | ZeroFrameLength                               // frameLength is 0

  function Min(a: int, b: int): int { if a <= b then a else b }

  /** Concatenation of a sequence of sequences (JavaScript's `flat()`): flattening a
      single sequence gives it back. */
  function Flatten<T>(ss: seq<seq<T>>): (r: seq<T>)
    ensures |ss| == 1 ==> r == ss[0]
  {
    if ss == [] then [] else ss[0] + Flatten(ss[1..])
  }

  /** The flattening is empty exactly when every inner sequence is. */
  lemma {:induction false} FlattenEmpty<T>(ss: seq<seq<T>>)
    ensures Flatten(ss) == [] <==> forall k :: 0 <= k < |ss| ==> ss[k] == []
  {
    if ss != [] {
      FlattenEmpty(ss[1..]);
      assert forall k :: 1 <= k < |ss| ==> ss[k] == ss[1..][k - 1];
    }
  }

  lemma {:induction false} FlattenCons<T>(s: seq<T>, ss: seq<seq<T>>)
    ensures Flatten([s] + ss) == s + Flatten(ss)
  {
    assert ([s] + ss)[1..] == ss;
  }

  lemma {:induction false} FlattenAppend<T>(a: seq<seq<T>>, b: seq<seq<T>>)
    ensures Flatten(a + b) == Flatten(a) + Flatten(b)
  {
    if a == [] {
      assert a + b == b;
    } else {
      assert (a + b)[1..] == a[1..] + b;
      FlattenAppend(a[1..], b);
    }
  }

  // ----- Arithmetic on frame boundaries -----

  lemma {:induction false} MulSucc(k: nat, L: nat)
    ensures (k + 1) * L == k * L + L
  {
  }

  /** Euclidean division is unique: q and r are the quotient and remainder of q*L + r. */
  lemma {:induction false} DivModUnique(q: nat, r: nat, L: nat)
    requires 0 < L && r < L
    ensures (q * L + r) / L == q && (q * L + r) % L == r
  {
    var a := q * L + r;
    var d := a / L - q;
    assert d * L == r - a % L;
  }

  /** Removing one frame's worth of elements removes one from the quotient. */
  lemma {:induction false} DivShift(a: nat, L: nat)
    requires 0 < L <= a
    ensures (a - L) / L + 1 == a / L && (a - L) % L == a % L
    ensures (a / L) * L == L + ((a - L) / L) * L
  {
    var q := (a - L) / L;
    assert a - L == q * L + (a - L) % L;
    assert a == (q + 1) * L + (a - L) % L;
    DivModUnique(q + 1, (a - L) % L, L);
  }

  /** The position where a frame starts is a multiple of L; the next element
      completes a frame exactly when it is the L-th one pushed since then. */
  lemma {:induction false} SealStep(start: nat, c: nat, n: nat, L: nat)
    requires 0 < L && c < L && start % L == 0 && n == start + c + 1
    ensures n % L == 0 <==> c + 1 == L
    ensures (start + L) % L == 0
  {
    var q := start / L;
    assert start == q * L + start % L;
    DivModUnique(q + 1, 0, L);
    assert start + L == (q + 1) * L;
    if c + 1 < L {
      DivModUnique(q, c + 1, L);
    }
  }

  // ----- The reference definition -----

  /** The frames the walk seals: each complete group of L consecutive elements, in order. */
  function SealedFrames<T>(arr: seq<T>, L: nat): (frames: seq<seq<T>>)
    requires 0 < L
    decreases |arr|
  {
    if |arr| < L then [] else [arr[..L]] + SealedFrames(arr[L..], L)
  }

  /** Every sealed frame is complete: it holds exactly L elements. */
  lemma {:induction false} SealedSizes<T>(arr: seq<T>, L: nat)
    requires 0 < L
    ensures forall k :: 0 <= k < |SealedFrames(arr, L)| ==> |SealedFrames(arr, L)[k]| == L
    decreases |arr|
  {
    if |arr| >= L {
      var rest := arr[L..];
      SealedSizes(rest, L);
      var frames, later := SealedFrames(arr, L), SealedFrames(rest, L);
      assert frames == [arr[..L]] + later;
      assert forall k :: 1 <= k < |frames| ==> frames[k] == later[k - 1];
    }
  }

  /** Sealing the frame that starts at `start` leaves the walk over the rest. */
  lemma {:induction false} SealOne<T>(arr: seq<T>, L: nat, start: nat)
    requires 0 < L && start + L <= |arr|
    ensures SealedFrames(arr[start..], L) == [arr[start .. start + L]] + SealedFrames(arr[start + L..], L)
    ensures Trailing(arr[start..], L) == Trailing(arr[start + L..], L)
  {
    var rest := arr[start..];
    assert rest[..L] == arr[start .. start + L];
    assert rest[L..] == arr[start + L..];
  }

  /** What is left in the in-progress frame once the walk is over: never a complete
      frame, and all of arr when arr is shorter than one frame. */
  function Trailing<T>(arr: seq<T>, L: nat): (rest: seq<T>)
    requires 0 < L
    ensures |rest| < L && |rest| <= |arr|
    ensures |arr| < L ==> rest == arr
    decreases |arr|
  {
    if |arr| < L then arr else Trailing(arr[L..], L)
  }

  /** What `toFrames(arr, L, opts)` returns or throws. The trailing check comes
      first, and `arr.length % 0` is NaN, which is not 0: with throwIfTrailing a
      zero frame length is reported as a trailing-frame error. */
  function FramesOf<T>(arr: seq<T>, L: nat, opts: Options): (r: Outcome<seq<seq<T>>, FrameError>)
    ensures r.Err? <==> L == 0 || (opts.throwIfTrailing && |arr| % L != 0)
    ensures r.Ok? ==> forall k :: 0 <= k < |r.value| ==> 0 < |r.value[k]| <= L
    ensures r.Ok? && arr == [] ==> r.value == []
  {
    if opts.throwIfTrailing && (L == 0 || |arr| % L != 0) then
      Err(TrailingFrame(|arr|, L))
    else if L == 0 then
      Err(ZeroFrameLength)
    else
      SealedSizes(arr, L);
      Ok(SealedFrames(arr, L) + if opts.keepTrailing && Trailing(arr, L) != [] then [Trailing(arr, L)] else [])
  }

  // ----- The implementation -----

  /** The `reduce` over arr: it threads the sealed `frames` and the in-progress
      `current` frame, and seals `current` whenever the 1-based position of the
      element just pushed is a multiple of L. */
  method WalkFrames<T>(arr: seq<T>, L: nat) returns (frames: seq<seq<T>>, current: seq<T>)
    requires 0 < L
    ensures frames == SealedFrames(arr, L)
    ensures current == Trailing(arr, L)
  {
    frames, current := [], [];
    ghost var start := 0;  // index in arr where `current` starts
    for index := 0 to |arr|
      invariant index == start + |current| && |current| < L
      invariant start % L == 0
      invariant current == arr[start .. index]
      invariant frames + SealedFrames(arr[start..], L) == SealedFrames(arr, L)
      invariant Trailing(arr[start..], L) == Trailing(arr, L)
    {
      var nThItemNumber := index + 1;
      SealStep(start, |current|, nThItemNumber, L);
      if nThItemNumber % L == 0 {
        current := current + [arr[index]];
        assert current == arr[start .. start + L];
        SealOne(arr, L, start);
        assert (frames + [current]) + SealedFrames(arr[start + L..], L) == frames + SealedFrames(arr[start..], L);
        frames := frames + [current];
        current := [];
        start := start + L;
      } else {
        current := current + [arr[index]];
      }
    }
    assert arr[start..] == current;
    assert frames + [] == frames;
  }

  /** `toFrames(arr, frameLength, opts)`: the two argument checks, the walk, and the
      push of a non-empty trailing frame when keepTrailing is set. */
  method ToFrames<T>(arr: seq<T>, frameLength: nat, opts: Options)
    returns (r: Outcome<seq<seq<T>>, FrameError>)
    ensures r.Err? <==> frameLength == 0 || (opts.throwIfTrailing && |arr| % frameLength != 0)
    ensures r.Err? && opts.throwIfTrailing ==> r.error == TrailingFrame(|arr|, frameLength)
    ensures r.Err? && !opts.throwIfTrailing ==> r.error == ZeroFrameLength
    ensures r == FramesOf(arr, frameLength, opts)
  {
    if opts.throwIfTrailing && (frameLength == 0 || |arr| % frameLength != 0) {
      return Err(TrailingFrame(|arr|, frameLength));
    }
    if frameLength == 0 {
      return Err(ZeroFrameLength);
    }
    var frames, current := WalkFrames(arr, frameLength);
    if |current| > 0 && opts.keepTrailing {
      frames := frames + [current];
    } else {
      assert frames + [] == frames;
    }
    r := Ok(frames);
  }

  // ----- Properties of the reference definition -----

  /** There is one sealed frame per complete group of L elements. */
  lemma {:induction false} SealedCount<T>(arr: seq<T>, L: nat)
    requires 0 < L
    ensures |SealedFrames(arr, L)| == |arr| / L
    decreases |arr|
  {
    if |arr| < L {
      DivModUnique(0, |arr|, L);
    } else {
      SealedCount(arr[L..], L);
      DivShift(|arr|, L);
    }
  }

  /** The k-th sealed frame is exactly arr[k*L .. (k+1)*L]. */
  lemma {:induction false} SealedFrameAt<T>(arr: seq<T>, L: nat, k: nat)
    requires 0 < L && k < |SealedFrames(arr, L)|
    ensures k * L + L <= |arr| && SealedFrames(arr, L)[k] == arr[k * L .. k * L + L]
    decreases k
  {
    var rest := arr[L..];
    assert SealedFrames(arr, L) == [arr[..L]] + SealedFrames(rest, L);
    if k > 0 {
      SealedFrameAt(rest, L, k - 1);
      MulSucc(k - 1, L);
      var a := (k - 1) * L;
      assert L + a == k * L;
      ShiftSlice(arr, L, a, L + a);
    }
  }

  /** A slice of arr[L..] is the slice of arr shifted by L. */
  lemma {:induction false} ShiftSlice<T>(arr: seq<T>, L: nat, a: nat, b: nat)
    requires b == L + a && b + L <= |arr|
    ensures arr[L..][a .. a + L] == arr[b .. b + L]
  {
    var x, y := arr[L..][a .. a + L], arr[b .. b + L];
    assert forall i :: 0 <= i < L ==> x[i] == y[i];
  }

  /** A suffix of arr[L..] is the suffix of arr shifted by L. */
  lemma {:induction false} ShiftSuffix<T>(arr: seq<T>, L: nat, a: nat, b: nat)
    requires b == L + a && b <= |arr|
    ensures arr[L..][a..] == arr[b..]
  {
    var x, y := arr[L..][a..], arr[b..];
    assert forall i :: 0 <= i < |x| ==> x[i] == y[i];
  }

  /** The sealed frames are the complete groups of L consecutive elements, in order. */
  lemma {:induction false} SealedFramesAreSlices<T>(arr: seq<T>, L: nat)
    requires 0 < L
    ensures |SealedFrames(arr, L)| == |arr| / L
    ensures forall k :: 0 <= k < |arr| / L ==>
              k * L + L <= |arr| && SealedFrames(arr, L)[k] == arr[k * L .. k * L + L]
  {
    SealedCount(arr, L);
    forall k | 0 <= k < |arr| / L
      ensures k * L + L <= |arr| && SealedFrames(arr, L)[k] == arr[k * L .. k * L + L]
    {
      SealedFrameAt(arr, L, k);
    }
  }

  /** The trailing remainder is the part of arr after the last complete frame. */
  lemma {:induction false} TrailingIsRemainder<T>(arr: seq<T>, L: nat)
    requires 0 < L
    ensures (|arr| / L) * L <= |arr|
    ensures Trailing(arr, L) == arr[(|arr| / L) * L ..]
    ensures |Trailing(arr, L)| == |arr| % L
    decreases |arr|
  {
    var q, r := |arr| / L, |arr| % L;
    assert |arr| == q * L + r;
    TrailingAfter(arr, L, q, r);
  }

  /** The same, with the quotient and remainder of |arr| by L given as q and r. */
  lemma {:induction false} TrailingAfter<T>(arr: seq<T>, L: nat, q: nat, r: nat)
    requires 0 < L && r < L && |arr| == q * L + r
    ensures q * L <= |arr| && Trailing(arr, L) == arr[q * L ..] && |Trailing(arr, L)| == r
    decreases q
  {
    if q > 0 {
      MulSucc(q - 1, L);
      var p := (q - 1) * L;
      TrailingAfter(arr[L..], L, q - 1, r);
      ShiftSuffix(arr, L, p, q * L);
    }
  }

  /** The sealed frames followed by the trailing remainder give back arr. */
  lemma {:induction false} SealedThenTrailing<T>(arr: seq<T>, L: nat)
    requires 0 < L
    ensures Flatten(SealedFrames(arr, L)) + Trailing(arr, L) == arr
    decreases |arr|
  {
    if |arr| >= L {
      var rest := arr[L..];
      SealedThenTrailing(rest, L);
      var later := SealedFrames(rest, L);
      assert SealedFrames(arr, L) == [arr[..L]] + later;
      FlattenCons(arr[..L], later);
      var head, tail := Flatten(later), Trailing(rest, L);
      calc {
        Flatten(SealedFrames(arr, L)) + Trailing(arr, L);
        (arr[..L] + head) + tail;
        arr[..L] + (head + tail);
        arr[..L] + rest;
        arr;
      }
    }
  }

  lemma {:induction false} CeilDiv(a: nat, L: nat)
    requires 0 < L
    ensures (a + L - 1) / L == if a % L == 0 then a / L else a / L + 1
  {
    var q, r := a / L, a % L;
    assert a == q * L + r;
    if r == 0 {
      DivModUnique(q, L - 1, L);
    } else {
      assert a + L - 1 == (q + 1) * L + (r - 1);
      DivModUnique(q + 1, r - 1, L);
    }
  }

  // ----- Properties of toFrames -----

  /** Frame count: floor(|arr|/L) frames, or ceil(|arr|/L) with keepTrailing; an
      empty array gives no frame at all. */
  lemma {:induction false} FramesCount<T>(arr: seq<T>, L: nat, opts: Options)
    requires FramesOf(arr, L, opts).Ok?
    ensures var frames := FramesOf(arr, L, opts).value;
      && |frames| == (if opts.keepTrailing then (|arr| + L - 1) / L else |arr| / L)
      && (arr == [] ==> frames == [])
  {
    SealedCount(arr, L);
    TrailingIsRemainder(arr, L);
    CeilDiv(|arr|, L);
  }

  /** Frame k is the contiguous slice of arr from k*L, L elements long or cut short
      by the end of arr. */
  lemma {:induction false} FrameAt<T>(arr: seq<T>, L: nat, opts: Options, k: nat)
    requires FramesOf(arr, L, opts).Ok? && k < |FramesOf(arr, L, opts).value|
    ensures k * L < |arr| && FramesOf(arr, L, opts).value[k] == arr[k * L .. Min(k * L + L, |arr|)]
  {
    var frames, sealed := FramesOf(arr, L, opts).value, SealedFrames(arr, L);
    MulSucc(k, L);
    if k < |sealed| {
      SealedFrameAt(arr, L, k);
      assert frames[k] == sealed[k];
    } else {
      SealedCount(arr, L);
      TrailingIsRemainder(arr, L);
      var q := |arr| / L;
      assert k == q && frames[k] == Trailing(arr, L);
      assert |arr| == q * L + |arr| % L;
    }
  }

  /** Frame sizes: every frame holds between 1 and L elements, each of the
      floor(|arr|/L) complete frames exactly L, and with keepTrailing the last frame
      holds the |arr| % L left over when that is not 0. */
  lemma {:induction false} FramesSizes<T>(arr: seq<T>, L: nat, opts: Options)
    requires FramesOf(arr, L, opts).Ok?
    ensures var frames := FramesOf(arr, L, opts).value;
      && (forall k :: 0 <= k < |frames| ==>
            0 < |frames[k]| <= L && (k < |arr| / L ==> |frames[k]| == L))
      && (opts.keepTrailing && |arr| % L != 0 ==>
            frames != [] && |frames[|frames| - 1]| == |arr| % L)
  {
    var frames := FramesOf(arr, L, opts).value;
    SealedCount(arr, L);
    forall k | 0 <= k < |frames|
      ensures 0 < |frames[k]| <= L && (k < |arr| / L ==> |frames[k]| == L)
    {
      FrameAt(arr, L, opts, k);
      if k < |arr| / L {
        SealedFrameAt(arr, L, k);
      }
    }
    TrailingIsRemainder(arr, L);
  }

  /** Every frame is the contiguous slice of arr from k*L, L elements long or cut
      short by the end of arr: no overlap, no gap, no reordering. */
  lemma {:induction false} FramesAreSlices<T>(arr: seq<T>, L: nat, opts: Options)
    requires FramesOf(arr, L, opts).Ok?
    ensures var frames := FramesOf(arr, L, opts).value;
      forall k :: 0 <= k < |frames| ==>
        k * L < |arr| && frames[k] == arr[k * L .. Min(k * L + L, |arr|)]
  {
    var frames := FramesOf(arr, L, opts).value;
    forall k | 0 <= k < |frames|
      ensures k * L < |arr| && frames[k] == arr[k * L .. Min(k * L + L, |arr|)]
    {
      FrameAt(arr, L, opts, k);
    }
  }

  /** Concatenating the frames gives back arr with keepTrailing, and otherwise arr
      without its last |arr| % L elements: its longest prefix whose length is a
      multiple of L. */
  lemma {:induction false} FramesConcat<T>(arr: seq<T>, L: nat, opts: Options)
    requires FramesOf(arr, L, opts).Ok?
    ensures |arr| % L <= |arr|
    ensures Flatten(FramesOf(arr, L, opts).value) ==
              if opts.keepTrailing then arr else arr[..|arr| - |arr| % L]
  {
    SealedThenTrailing(arr, L);
    TrailingIsRemainder(arr, L);
    var sealed, trailing := SealedFrames(arr, L), Trailing(arr, L);
    if opts.keepTrailing && trailing != [] {
      FlattenAppend(sealed, [trailing]);
      assert Flatten([trailing]) == trailing + Flatten([]);
    } else {
      assert sealed + [] == sealed;
      assert Flatten(sealed) == arr[..|arr| - |trailing|];
    }
  }

  /** The first j frames cover exactly the first j*L elements of arr (fewer when
      the last of them is a short trailing frame). */
  lemma {:induction false} FramesPrefix<T>(arr: seq<T>, L: nat, opts: Options, j: nat)
    requires FramesOf(arr, L, opts).Ok?
    requires j <= |FramesOf(arr, L, opts).value|
    ensures Flatten(FramesOf(arr, L, opts).value[..j]) == arr[..Min(j * L, |arr|)]
  {
    var frames := FramesOf(arr, L, opts).value;
    if j == 0 {
      assert frames[..0] == [];
    } else {
      FramesPrefix(arr, L, opts, j - 1);
      FrameAt(arr, L, opts, j - 1);
      MulSucc(j - 1, L);
      assert frames[..j] == frames[..j - 1] + [frames[j - 1]];
      FlattenAppend(frames[..j - 1], [frames[j - 1]]);
      assert Flatten([frames[j - 1]]) == frames[j - 1] + Flatten([]);
      assert arr[..(j - 1) * L] + arr[(j - 1) * L .. Min(j * L, |arr|)] == arr[..Min(j * L, |arr|)];
    }
  }
}
