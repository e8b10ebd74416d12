/** adjust_arnr_filter and the frame set-up of vp9_temporal_filter: how
    many frames around the alternate reference are blended, how strongly,
    and which lookahead entries they are. */
module Vp9Arnr {

  /** C division, which truncates toward zero. */
  function CDiv(a: int, b: int): (r: int)
    requires b > 0
    ensures a >= 0 ==> r == a / b
    ensures a < 0 ==> r == -((-a) / b)
  {
    if a >= 0 then a / b else -((-a) / b)
  }

  /** The encoder state adjust_arnr_filter reads. `q` is the quantizer of
      the average frame, already converted to an integer; `halve` holds
      when a two-pass multi-ARF group is coding an ARF that is not the
      standard one. */
  datatype ArnrInputs = ArnrInputs(lookaheadDepth: int, distance: int, groupBoost: int,
                                   maxFrames: int, arnrStrength: int, q: int, halve: bool)

  datatype Arnr = Arnr(frames: int, strength: int)

  /** frames_fwd: half of one less than the maximum (an arithmetic shift),
      at most the frames left after the ARF and at most the distance. */
  function FramesForward(a: ArnrInputs): (r: int)
    ensures r <= a.lookaheadDepth - a.distance - 1 && r <= a.distance
  {
    var afterArf := a.lookaheadDepth - a.distance - 1;
    var fwd := (a.maxFrames - 1) / 2;
    var fwd1 := if fwd > afterArf then afterArf else fwd;
    if fwd1 > a.distance then a.distance else fwd1
  }

  /** frames_bwd: as many as forward, one more for an even maximum while
      that stays within the distance. */
  function FramesBackward(a: ArnrInputs): (r: int)
    ensures r - FramesForward(a) in {0, 1} && (FramesForward(a) < a.distance ==> r <= a.distance)
  {
    var fwd := FramesForward(a);
    if fwd < a.distance then fwd + (a.maxFrames + 1) % 2 else fwd
  }

  /** The strength before the group-boost cap: the configured strength,
      lowered for a low quantizer, not below 0. */
  function BaseStrength(a: ArnrInputs): (r: int)
    ensures a.q > 16 ==> r == a.arnrStrength
    ensures a.q <= 16 ==> 0 <= r && (r == 0 || r <= a.arnrStrength)
  {
    if a.q > 16 then a.arnrStrength
    else
      var s := a.arnrStrength - CDiv(16 - a.q, 2);
      if s < 0 then 0 else s
  }

  /** adjust_arnr_filter: the window of backward + 1 + forward frames,
      cut to group_boost / 150 (made odd by adding one when that is even)
      when it is larger; the strength, cut to group_boost / 300 when it is
      larger, and halved (an arithmetic shift) for a non-standard ARF. */
  function AdjustArnrFilter(a: ArnrInputs): (r: Arnr)
    ensures var frames0 := FramesBackward(a) + 1 + FramesForward(a);
      var cap := CDiv(a.groupBoost, 150);
      && (frames0 <= cap ==> r.frames == frames0)
      && (frames0 > cap ==> (r.frames == cap || r.frames == cap + 1) && r.frames % 2 == 1)
    ensures !a.halve ==>
      var base, cap := BaseStrength(a), CDiv(a.groupBoost, 300);
      r.strength <= base && r.strength <= cap && (r.strength == base || r.strength == cap)
  {
    var frames0 := FramesBackward(a) + 1 + FramesForward(a);
    var cap := CDiv(a.groupBoost, 150);
    var frames := if frames0 > cap then cap + (if cap % 2 == 0 then 1 else 0) else frames0;
    var strength0 := BaseStrength(a);
    var strengthCap := CDiv(a.groupBoost, 300);
    var strength1 := if strength0 > strengthCap then strengthCap else strength0;
    var strength := if a.halve then strength1 / 2 else strength1;
    Arnr(frames, strength)
  }

  /** The blur window is at most backward + 1 + forward frames; when the
      group boost caps it the count is made odd, so the ARF sits in the
      middle; with a non-negative boost the strength is at most boost/300
      and not negative. Halving touches only the strength: it is the
      unhalved strength shifted right by one, and the window is the same. */
  lemma ArnrBounds(a: ArnrInputs)
    ensures var r := AdjustArnrFilter(a);
      var frames0 := FramesBackward(a) + 1 + FramesForward(a);
      r.frames <= frames0
      && (frames0 > CDiv(a.groupBoost, 150) ==> r.frames % 2 == 1)
      && (a.groupBoost >= 0 && a.arnrStrength >= 0 ==> 0 <= r.strength <= a.groupBoost / 300)
      && r.frames == AdjustArnrFilter(a.(halve := !a.halve)).frames
      && (a.halve ==> r.strength == AdjustArnrFilter(a.(halve := false)).strength / 2)
  {
  }

  const MAX_LAG_BUFFERS: int := 25

  datatype Option<T> = None | Some(value: T)

  /** The frame-index set-up of vp9_temporal_filter: frames[n] is the
      lookahead entry start_frame - (framesToBlur - 1 - n); the rest stay
      empty. The entries are consecutive and the one at the ARF index
      framesToBlur / 2 is the entry at `distance`. */
  method SetUpFrames(framesToBlur: int, distance: int) returns (frames: array<Option<int>>, altRefIndex: int)
    requires framesToBlur <= MAX_LAG_BUFFERS
    ensures fresh(frames) && frames.Length == MAX_LAG_BUFFERS
    ensures altRefIndex == CDiv(framesToBlur, 2)
    ensures forall n | 0 <= n < MAX_LAG_BUFFERS ::
      frames[n] == if n < framesToBlur then Some(distance - altRefIndex + n) else None
    ensures 0 < framesToBlur ==> frames[altRefIndex] == Some(distance)
  {
    frames := new Option<int>[MAX_LAG_BUFFERS](_ => None);
    var backward := CDiv(framesToBlur, 2);
    var forward := CDiv(framesToBlur - 1, 2);
    var startFrame := distance + forward;
    var frame := 0;
    while frame < framesToBlur
      invariant 0 <= frame <= (if framesToBlur < 0 then 0 else framesToBlur)
      invariant forall n | 0 <= n < MAX_LAG_BUFFERS ::
        frames[n] == if framesToBlur - frame <= n < framesToBlur then Some(distance - backward + n) else None
    {
      var whichBuffer := startFrame - frame;
      frames[framesToBlur - 1 - frame] := Some(whichBuffer);
      frame := frame + 1;
    }
    altRefIndex := backward;
  }
}
