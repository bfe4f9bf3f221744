/**
 * Sampling frames out of a video for dataset creation: seek to positions 0, k, 2k, ...
 * (k = `frame_interval`), save each frame read, and stop at the first failed read or
 * once the next position reaches the reported frame count.  The video is abstracted to
 * whether it opened and which positions can be read.
 */
module ExtractFrames {
  import opened Decimal

  /** `frame_{i:05d}.jpg`, the name of the i-th saved frame. */
  function FrameFileName(i: nat): (name: string)
    ensures |name| >= 15 && name[..6] == "frame_" && name[|name| - 4..] == ".jpg"
  {
    "frame_" + ZeroPadded(i, 5) + ".jpg"
  }

  /** A frame file name is `frame_`, at least five digits denoting the count, then `.jpg`. */
  lemma FrameFileNameShape(i: nat)
    ensures var name := FrameFileName(i);
      && |name| == |ZeroPadded(i, 5)| + 10 && |ZeroPadded(i, 5)| >= 5
      && name[..6] == "frame_" && name[|name| - 4..] == ".jpg"
      && AllDigits(name[6..|name| - 4]) && DigitsValue(name[6..|name| - 4]) == i
  {
    var name := FrameFileName(i);
    assert name[6..|name| - 4] == ZeroPadded(i, 5);
    ZeroPaddedRoundTrip(i, 5);
  }

  /** Distinct save counts give distinct file names, so no saved frame is overwritten. */
  lemma FrameFileNameInjective(i: nat, j: nat)
    ensures FrameFileName(i) == FrameFileName(j) <==> i == j
  {
    var a, b := FrameFileName(i), FrameFileName(j);
    FrameFileNameShape(i);
    FrameFileNameShape(j);
    if a == b {
      assert a[6..|a| - 4] == ZeroPadded(i, 5);
      assert b[6..|b| - 4] == ZeroPadded(j, 5);
      ZeroPaddedInjective(i, j, 5);
    }
  }

  /** The names of the first `n` saved frames. */
  function SavedNames(n: nat): (names: seq<string>)
    ensures |names| == n && forall i :: 0 <= i < n ==> names[i] == FrameFileName(i)
  {
    seq(n, i requires 0 <= i < n => FrameFileName(i))
  }

  lemma SavedNamesStep(n: nat)
    ensures SavedNames(n) + [FrameFileName(n)] == SavedNames(n + 1)
  {
  }

  /** Whether the loop body that reads position `pos` ends the loop. */
  predicate EndsLoop(pos: int, frameInterval: int, totalFrames: int, readOk: int -> bool) {
    !readOk(pos) || pos + frameInterval >= totalFrames
  }

  /** The position sought in iteration `j`: the interval added `j` times to 0. */
  function Position(j: nat, frameInterval: int): int {
    if j == 0 then 0 else Position(j - 1, frameInterval) + frameInterval
  }

  lemma {:induction false} PositionIsProduct(j: nat, frameInterval: int)
    ensures Position(j, frameInterval) == j * frameInterval
  {
    if j > 0 {
      PositionIsProduct(j - 1, frameInterval);
      MulSucc(j - 1, frameInterval);
    }
  }

  /** The loop ends: some iteration reaches a failed read or the frame count. */
  ghost predicate Terminates(frameInterval: int, totalFrames: int, readOk: int -> bool) {
    exists j: nat :: EndsLoop(Position(j, frameInterval), frameInterval, totalFrames, readOk)
  }

  /** A positive interval always ends the loop, by the frame count if not by a failed read. */
  lemma PositiveIntervalTerminates(frameInterval: int, totalFrames: int, readOk: int -> bool)
    requires frameInterval >= 1
    ensures Terminates(frameInterval, totalFrames, readOk)
  {
    var j: nat := if totalFrames > 0 then totalFrames else 0;
    PositionIsProduct(j, frameInterval);
    if j > 0 {
      MulAtLeastFactor(frameInterval, j);
    }
    assert EndsLoop(Position(j, frameInterval), frameInterval, totalFrames, readOk);
  }

  /**
   * With a zero interval, a non-empty video and a readable first frame no iteration ever
   * ends the loop: every iteration reads position 0 again.
   */
  lemma ZeroIntervalNeverEnds(totalFrames: int, readOk: int -> bool)
    requires totalFrames > 0 && readOk(0)
    ensures !Terminates(0, totalFrames, readOk)
  {
    forall j: nat
      ensures !EndsLoop(Position(j, 0), 0, totalFrames, readOk)
    {
      PositionIsProduct(j, 0);
    }
  }

  lemma MulAtLeastFactor(e: int, k: int)
    requires e >= 1 && k >= 0
    ensures e * k >= k
  {
    assert (e - 1) * k >= 0;
  }

  lemma MulSucc(a: int, k: int)
    ensures (a + 1) * k == a * k + k
  {
  }

  /** Euclidean division by a positive `k` is determined by bracketing. */
  lemma DivUnique(m: int, k: int, q: int)
    requires k >= 1 && q * k <= m < q * k + k
    ensures m / k == q
  {
    var d, r := m / k, m % k;
    assert m == d * k + r && 0 <= r < k;
    var e := d - q;
    assert e * k == d * k - q * k;
    if e >= 1 {
      MulAtLeastFactor(e, k);
    } else if e <= -1 {
      MulAtLeastFactor(-e, k);
    }
  }

  /** The number of multiples of `k` below `n` is the rounded-up quotient. */
  lemma CeilDiv(n: int, k: int, s: int)
    requires k >= 1 && (s - 1) * k < n <= s * k
    ensures s == (n + k - 1) / k
  {
    assert (s - 1) * k == s * k - k;
    DivUnique(n + k - 1, k, s);
  }

  /**
   * When reads succeed exactly below the frame count, the loop saves one frame per
   * multiple of the interval below it: the rounded-up quotient.
   */
  lemma SavedCountIsCeil(attempted: seq<int>, savedCount: nat, frameInterval: int, totalFrames: int, readOk: int -> bool)
    requires frameInterval >= 1 && totalFrames >= 1
    requires forall p :: 0 <= p ==> readOk(p) == (p < totalFrames)
    requires |attempted| >= 1
    requires forall j :: 0 <= j < |attempted| ==> attempted[j] == Position(j, frameInterval)
    requires forall j :: 1 <= j < |attempted| ==> attempted[j] < totalFrames
    requires EndsLoop(attempted[|attempted| - 1], frameInterval, totalFrames, readOk)
    requires savedCount == |attempted| || (savedCount == |attempted| - 1 && !readOk(attempted[|attempted| - 1]))
    ensures savedCount == (totalFrames + frameInterval - 1) / frameInterval
  {
    // every position sought lies below the frame count, so no read fails
    var last := |attempted| - 1;
    PositionIsProduct(last, frameInterval);
    assert attempted[last] >= 0 by {
      if last > 0 {
        MulAtLeastFactor(last, frameInterval);
      }
    }
    assert attempted[last] < totalFrames;
    assert savedCount == |attempted|;
    assert (savedCount - 1) * frameInterval == attempted[last] < totalFrames;
    MulSucc(savedCount - 1, frameInterval);
    CeilDiv(totalFrames, frameInterval, savedCount);
  }

  /** The first `n` positions sought. */
  function Positions(n: nat, frameInterval: int): (ps: seq<int>)
    ensures |ps| == n && forall j :: 0 <= j < n ==> ps[j] == Position(j, frameInterval)
  {
    seq(n, j requires 0 <= j < n => Position(j, frameInterval))
  }

  lemma PositionsStep(n: nat, frameInterval: int)
    ensures Positions(n, frameInterval) + [Position(n, frameInterval)] == Positions(n + 1, frameInterval)
  {
  }

  /** None of the first `n` iterations ends the loop. */
  predicate NoneEnds(n: nat, frameInterval: int, totalFrames: int, readOk: int -> bool) {
    forall j :: 0 <= j < n ==> !EndsLoop(Position(j, frameInterval), frameInterval, totalFrames, readOk)
  }

  /**
   * Returns the positions the loop seeks to and the names of the files it saves.  The
   * loop has no bound of its own, so the model asks for the runs in which it ends; with
   * a positive interval that is every run.
   */
  method ExtractFrames(isOpened: bool, totalFrames: int, frameInterval: int, readOk: int -> bool)
      returns (attempted: seq<int>, saved: seq<string>)
    requires isOpened ==> Terminates(frameInterval, totalFrames, readOk)
    ensures !isOpened ==> attempted == [] && saved == []
    ensures isOpened ==> |attempted| >= 1 && attempted[0] == 0
    ensures attempted == Positions(|attempted|, frameInterval)
    ensures isOpened ==> NoneEnds(|attempted| - 1, frameInterval, totalFrames, readOk)
    ensures isOpened ==> EndsLoop(attempted[|attempted| - 1], frameInterval, totalFrames, readOk)
    ensures |saved| == |attempted| || (|saved| == |attempted| - 1 && !readOk(attempted[|attempted| - 1]))
    ensures saved == SavedNames(|saved|)
    ensures forall i :: 0 <= i < |saved| ==> readOk(attempted[i])
    ensures isOpened && frameInterval >= 1 && totalFrames >= 1
         && (forall p :: 0 <= p ==> readOk(p) == (p < totalFrames))
         ==> |saved| == (totalFrames + frameInterval - 1) / frameInterval
  {
    attempted, saved := [], [];
    if !isOpened {
      return;
    }
    ghost var bound: nat :| EndsLoop(Position(bound, frameInterval), frameInterval, totalFrames, readOk);
    var frameCount := 0;
    var savedCount := 0;
    while true
      invariant savedCount == |saved| == |attempted|
      invariant frameCount == Position(savedCount, frameInterval)
      invariant attempted == Positions(savedCount, frameInterval)
      invariant saved == SavedNames(savedCount)
      invariant NoneEnds(savedCount, frameInterval, totalFrames, readOk)
      invariant savedCount <= bound
      decreases bound - savedCount
    {
      PositionsStep(savedCount, frameInterval);
      attempted := attempted + [frameCount];
      var success := readOk(frameCount);
      if !success {
        break;
      }
      SavedNamesStep(savedCount);
      saved := saved + [FrameFileName(savedCount)];
      savedCount := savedCount + 1;
      frameCount := frameCount + frameInterval;
      if frameCount >= totalFrames {
        break;
      }
    }
    if frameInterval >= 1 && totalFrames >= 1 && (forall p :: 0 <= p ==> readOk(p) == (p < totalFrames)) {
      SavedCountIsCeil(attempted, |saved|, frameInterval, totalFrames, readOk);
    }
  }

  /** No position after the first lies at or past the frame count. */
  lemma SoughtBelowCount(attempted: seq<int>, frameInterval: int, totalFrames: int, readOk: int -> bool)
    requires |attempted| >= 1 && attempted == Positions(|attempted|, frameInterval)
    requires NoneEnds(|attempted| - 1, frameInterval, totalFrames, readOk)
    ensures forall j :: 1 <= j < |attempted| ==> attempted[j] < totalFrames
  {
    forall j | 1 <= j < |attempted|
      ensures attempted[j] < totalFrames
    {
      assert !EndsLoop(Position(j - 1, frameInterval), frameInterval, totalFrames, readOk);
    }
  }
}
