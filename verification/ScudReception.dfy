/** What the SCUD485 receiver guarantees on a noisy bus. */
module ScudReception {
  import opened Wrappers
  import opened Bytes
  import opened ScudReceiver
  import ScudProtocol
  import Ccitt
  import opened Serial
  import opened Battery

  // ---- frames --------------------------------------------------------------------------------------

  function FrameOf(t: Target, payload: seq<byte>): seq<byte> {
    t.Prefix() + payload + Ccitt.WireBytes(Ccitt.Crc([t.cmd, t.len] + payload)) + [TAIL]
  }

  /** Where the parts of a frame are. */
  lemma FrameParts(t: Target, payload: seq<byte>)
    requires |payload| == t.Size()
    ensures var f := FrameOf(t, payload);
      var w := Ccitt.WireBytes(Ccitt.Crc([t.cmd, t.len] + payload));
      && |f| == t.Size() + 7
      && f[0] == HEAD && f[1] == HEAD && f[2] == t.cmd && f[3] == t.len
      && f[4..4 + t.Size()] == payload
      && f[t.Size() + 4] == w[0] && f[t.Size() + 5] == w[1] && f[t.Size() + 6] == TAIL
  {
    hide Ccitt.Crc, Ccitt.WireBytes, Target.Size;
    var w := Ccitt.WireBytes(Ccitt.Crc([t.cmd, t.len] + payload));
    var p := t.Prefix();
    assert FrameOf(t, payload) == p + payload + w + [TAIL];
    assert p[0] == HEAD && p[1] == HEAD && p[2] == t.cmd && p[3] == t.len;
  }

  lemma Inside(s: seq<byte>, i: nat, f: seq<byte>, k: nat)
    requires i + |f| <= |s| && s[i..i + |f|] == f && k < |f|
    ensures s[i + k] == f[k]
  {
    assert s[i..i + |f|][k] == f[k];
  }

  lemma FrameLayout(t: Target, pre: seq<byte>, payload: seq<byte>, post: seq<byte>)
    requires |payload| == t.Size()
    ensures var s, i := pre + FrameOf(t, payload) + post, |pre|;
      var w := Ccitt.WireBytes(Ccitt.Crc([t.cmd, t.len] + payload));
      && |FrameOf(t, payload)| == t.Size() + 7 && TailAt(t, i) < |s|
      && Occurs(t, s, i) && PayloadAt(t, s, i) == payload
      && s[TailAt(t, i) - 2] == w[0] && s[TailAt(t, i) - 1] == w[1] && s[TailAt(t, i)] == TAIL
  {
    hide Ccitt.Crc, Ccitt.WireBytes, FrameOf, Target.Size;
    var f := FrameOf(t, payload);
    FrameParts(t, payload);
    var s, i := pre + f + post, |pre|;
    assert s[i..i + |f|] == f;
    assert s[i..i + |f|][4..4 + t.Size()] == s[i + 4..i + 4 + t.Size()];
    Inside(s, i, f, 0);
    Inside(s, i, f, 1);
    Inside(s, i, f, 2);
    Inside(s, i, f, 3);
    Inside(s, i, f, t.Size() + 4);
    Inside(s, i, f, t.Size() + 5);
    Inside(s, i, f, t.Size() + 6);
  }

  lemma FrameIsValid(t: Target, pre: seq<byte>, payload: seq<byte>, post: seq<byte>)
    requires |payload| == t.Size()
    ensures var s := pre + FrameOf(t, payload) + post;
      && Occurs(t, s, |pre|) && Valid(t, s, |pre|) && PayloadAt(t, s, |pre|) == payload
  {
    hide Ccitt.Crc, Ccitt.Checks, Ccitt.WireBytes, FrameOf;
    var message := [t.cmd, t.len] + payload;
    var w := Ccitt.WireBytes(Ccitt.Crc(message));
    FrameLayout(t, pre, payload, post);
    Ccitt.ChecksIff(message, w[0], w[1]);
    assert w == [w[0], w[1]];
  }

  /** The query is itself a frame, with LEN 01: what other devices on the bus, and our own receiver of the echo,
      see. */
  lemma QueryIsFrame(cmd: byte, pre: seq<byte>, post: seq<byte>)
    ensures ScudProtocol.QueryFrame(cmd) == FrameOf(Target(cmd, 1), [1])
    ensures var s := pre + ScudProtocol.QueryFrame(cmd) + post; var t := Target(cmd, 1);
      Occurs(t, s, |pre|) && Valid(t, s, |pre|) && PayloadAt(t, s, |pre|) == [1]
  {
    hide Ccitt.Crc, Ccitt.WireBytes, Ccitt.Checks, Occurs, Valid;
    var t := Target(cmd, 1);
    assert t.Size() == 1;
    assert [cmd, 1] + [1] == [cmd, 1, ScudProtocol.QUERY_PARAM];
    var w := Ccitt.WireBytes(Ccitt.Crc([cmd, 1, ScudProtocol.QUERY_PARAM]));
    assert t.Prefix() + [1] + w + [TAIL] == ScudProtocol.QueryFrame(cmd);
    FrameIsValid(t, pre, [1], post);
  }

  /** And nothing else is valid: at i stands a whole frame for the target, tail byte included, exactly when the
      receiver takes it for one. */
  lemma ValidIffFrame(t: Target, s: seq<byte>, i: nat)
    requires i <= |s|
    ensures Occurs(t, s, i) && Valid(t, s, i)
       <==> exists payload | |payload| == t.Size() :: FrameOf(t, payload) <= s[i..]
  {
    hide FrameOf, Ccitt.Crc, Ccitt.WireBytes, Ccitt.Checks, Target.Size;
    if Occurs(t, s, i) && Valid(t, s, i) {
      ValidSpells(t, s, i);
      assert FrameOf(t, PayloadAt(t, s, i)) <= s[i..];
    }
    forall payload | |payload| == t.Size() && FrameOf(t, payload) <= s[i..]
      ensures Occurs(t, s, i) && Valid(t, s, i)
    {
      var f := FrameOf(t, payload);
      FrameIsValid(t, s[..i], payload, s[i..][|f|..]);
      assert s[..i] + f + s[i..][|f|..] == s;
    }
  }

  lemma ValidSpells(t: Target, s: seq<byte>, i: nat)
    requires Occurs(t, s, i) && Valid(t, s, i)
    ensures |PayloadAt(t, s, i)| == t.Size() && FrameOf(t, PayloadAt(t, s, i)) <= s[i..]
  {
    hide Ccitt.Crc, Ccitt.WireBytes, Ccitt.Checks, Target.Size;
    var payload, k := PayloadAt(t, s, i), TailAt(t, i);
    var w := Ccitt.WireBytes(Ccitt.Crc([t.cmd, t.len] + payload));
    Ccitt.ChecksIff([t.cmd, t.len] + payload, s[k - 2], s[k - 1]);
    assert s[i..i + 4] == t.Prefix();
    var n := i + 4 + t.Size();
    assert k == n + 2 && payload == s[i + 4..n];
    assert s[n..k + 1] == [s[k - 2], s[k - 1]] + [s[k]];
    assert s[i..k + 1] == s[i..i + 4] + s[i + 4..n] + s[n..k + 1];
    assert s[i..i + 4] + payload + ([s[k - 2], s[k - 1]] + [s[k]])
        == s[i..i + 4] + payload + [s[k - 2], s[k - 1]] + [s[k]];
    assert s[i..][..k + 1 - i] == s[i..k + 1];
  }

  // ---- damaged frames --------------------------------------------------------------------------------

  /** Two frames for one CMD and LEN whose payload and CRC bytes differ, but only within two adjacent bytes,
      cannot both pass the check: what comes of the one by such an error is never taken for a frame. */
  lemma DamagedFrameIsRejected(t: Target, pre: seq<byte>, u: seq<byte>, v: seq<byte>, post: seq<byte>)
    requires |u| == |v| <= 2 && u != v
    requires |pre| + |u| + |post| == t.Size() + 2
    requires Valid(t, t.Prefix() + (pre + u + post) + [TAIL], 0)
    ensures !Valid(t, t.Prefix() + (pre + v + post) + [TAIL], 0)
  {
    hide Valid, Ccitt.Crc, Ccitt.Checks, Ccitt.WireBytes, Target.Size;
    var head := [t.cmd, t.len] + pre;
    ValidIffResidueZero(t, pre + u + post);
    ValidIffResidueZero(t, pre + v + post);
    assert [t.cmd, t.len] + (pre + u + post) == head + u + post;
    assert [t.cmd, t.len] + (pre + v + post) == head + v + post;
    Ccitt.BurstIsDetected(head, u, v, post);
  }

  lemma ValidIffResidueZero(t: Target, body: seq<byte>)
    requires |body| == t.Size() + 2
    ensures Valid(t, t.Prefix() + body + [TAIL], 0) <==> Ccitt.Crc([t.cmd, t.len] + body) == 0
  {
    hide Ccitt.Crc, Ccitt.Checks, Ccitt.WireBytes, Target.Size;
    var n := t.Size();
    var s, payload := t.Prefix() + body + [TAIL], body[..n];
    assert PayloadAt(t, s, 0) == payload;
    assert s[TailAt(t, 0) - 2] == body[n] && s[TailAt(t, 0) - 1] == body[n + 1];
    Ccitt.ResidueZeroIffChecks([t.cmd, t.len] + payload, body[n], body[n + 1]);
    assert [t.cmd, t.len] + payload + [body[n], body[n + 1]] == [t.cmd, t.len] + body;
  }

  // ---- self-synchronisation --------------------------------------------------------------------------

  /** After any bytes in which no FE FE CMD LEN occurs, and none is begun that the frame completes, a
      valid frame is delivered, whatever follows, and exactly at its tail byte. */
  lemma SelfSynchronises(t: Target, noise: seq<byte>, payload: seq<byte>, post: seq<byte>)
    requires Matchable(t) && |payload| == t.Size()
    requires forall i | 0 <= i < |noise| :: !Occurs(t, noise + FrameOf(t, payload), i)
    ensures Run(t, START, noise + FrameOf(t, payload) + post)
         == Some((payload, |noise| + |FrameOf(t, payload)|))
  {
    hide Ccitt.Crc, Ccitt.Checks, Ccitt.WireBytes, Valid, Scan, Run, FrameOf;
    var f := FrameOf(t, payload);
    var s := noise + f + post;
    FrameIsValid(t, noise, payload, post);
    FrameLayout(t, noise, payload, post);
    forall i | 0 <= i < |noise| ensures !Occurs(t, s, i) {
      assert Occurs(t, s, i) ==> Occurs(t, noise + f, i);
    }
    ScanSkips(t, s, 0, |noise|);
    ScanAccepts(t, s, |noise|);
    ScudProtocol.StartIsScan(t, s);
  }

  lemma ScanAccepts(t: Target, s: seq<byte>, i: nat)
    requires Occurs(t, s, i) && Valid(t, s, i)
    ensures Scan(t, s, i) == Some(i)
  {
    hide Ccitt.Checks;
  }

  lemma OccursWithin(t: Target, u: seq<byte>, s: seq<byte>, i: nat)
    requires u <= s
    ensures i + 4 <= |u| && Occurs(t, s, i) ==> Occurs(t, u, i)
  {}

  /** For the commands in use nothing is begun across the border: it is enough that the noise itself
      holds no FE FE CMD LEN. */
  lemma NoiseAlone(t: Target, noise: seq<byte>, payload: seq<byte>, i: nat)
    requires t.cmd != HEAD && t.len != HEAD
    requires forall j | 0 <= j < |noise| :: !Occurs(t, noise, j)
    requires i < |noise|
    ensures !Occurs(t, noise + FrameOf(t, payload), i)
  {
    hide Ccitt.Crc, Ccitt.WireBytes;
    var s := noise + FrameOf(t, payload);
    assert s[|noise|] == HEAD && s[|noise| + 1] == HEAD;
    OccursWithin(t, noise, s, i);
  }

  /** A half-duplex converter echoes the query itself; the reply behind the echo is still delivered. */
  lemma EchoThenReply(t: Target, noise: seq<byte>, payload: seq<byte>, post: seq<byte>)
    requires t.cmd != HEAD && t.cmd != TAIL && t.len != HEAD && t.len != 1 && |payload| == t.Size()
    requires forall j | 0 <= j < |noise| :: !Occurs(t, noise, j)
    ensures Run(t, START, noise + ScudProtocol.QueryFrame(t.cmd) + FrameOf(t, payload) + post)
         == Some((payload, |noise| + 8 + |FrameOf(t, payload)|))
  {
    hide Ccitt.Crc, Ccitt.WireBytes, Run;
    var echo := ScudProtocol.QueryFrame(t.cmd);
    var both := noise + echo;
    forall j | 0 <= j < |both| ensures !Occurs(t, both, j) {
      assert |echo| == 8 && echo[0] == HEAD && echo[1] == HEAD && echo[2] == t.cmd && echo[3] == 1
          && echo[4] == 1 && echo[7] == TAIL;
      assert forall k | 0 <= k < 8 :: both[|noise| + k] == echo[k];
      OccursWithin(t, noise, both, j);
    }
    forall i | 0 <= i < |both| ensures !Occurs(t, both + FrameOf(t, payload), i) {
      NoiseAlone(t, both, payload, i);
    }
    SelfSynchronises(t, both, payload, post);
  }

  // ---- the head automaton ----------------------------------------------------------------------------

  /** The state after a stream, unless a frame was delivered on the way. */
  function After(t: Target, st: State, s: seq<byte>): Outcome
    decreases s
  {
    if s == [] then Running(st)
    else match After(t, st, s[..|s| - 1])
      case Running(st') => Step(t, st', s[|s| - 1])
      case Delivered(p) => Delivered(p)
  }

  lemma {:induction false} AfterFirst(t: Target, st: State, s: seq<byte>)
    requires s != []
    ensures After(t, st, s) == match Step(t, st, s[0])
                               case Running(st') => After(t, st', s[1..])
                               case Delivered(p) => Delivered(p)
    decreases |s|
  {
    hide Step;
    var n := |s| - 1;
    if n > 0 {
      AfterFirst(t, st, s[..n]);
      assert s[1..][..n - 1] == s[..n][1..];
    } else {
      assert s[..0] == [];
    }
  }

  /** The stream ends with the first k bytes of FE FE CMD LEN. */
  predicate Ends(t: Target, s: seq<byte>, k: nat) {
    && k <= 4 && k <= |s|
    && forall j | 0 <= j < k :: s[|s| - k + j] == t.Prefix()[j]
  }

  predicate IsHead(st: State) { st.stage in {Head1, Head2, Cmd, Len} }

  /** The number of the head stage: how many bytes of FE FE CMD LEN it has. */
  function Progress(st: State): nat
    requires IsHead(st)
  {
    match st.stage case Head1 => 0 case Head2 => 1 case Cmd => 2 case Len => 3
  }

  /** The stage is the longest end of the stream that is a beginning of FE FE CMD LEN. */
  predicate AtLongestBorder(t: Target, s: seq<byte>, st: State) {
    && IsHead(st) && WellFormed(t, st) && Ends(t, s, Progress(st))
    && forall k | Progress(st) < k <= 4 :: !Ends(t, s, k)
  }

  /** The restart the receiver is at: the tail byte of the last candidate that was rejected, or `from` when
      none was. */
  function Restart(t: Target, s: seq<byte>, from: nat): (r: nat)
    requires from <= |s|
    ensures from <= r <= |s|
    decreases |s| - from
  {
    match First(t, s, from)
    case None => from
    case Some(i) => if TailAt(t, i) >= |s| || Valid(t, s, i) then from else Restart(t, s, TailAt(t, i))
  }

  /** The bytes since the last restart are at a border when the machine is in a head stage, and otherwise end
      with the candidate it is in. */
  ghost predicate Placed(t: Target, s: seq<byte>, from: nat, st: State)
    requires from <= |s|
  {
    && WellFormed(t, st)
    && if IsHead(st) then First(t, s, from).None? && AtLongestBorder(t, s[from..], st)
       else
         && First(t, s, from).Some?
         && var i := First(t, s, from).value;
            i + |History(t, st)| == |s| && s[i..] == History(t, st)
  }

  /** For every stream, with whatever rejected candidates in it: in a head stage, the stage number is the
      length of the longest suffix of the bytes since the last restart that is a prefix of FE FE CMD LEN;
      in a body stage, the machine holds the candidate that begins at the first occurrence since then. */
  lemma {:induction false} HeadStageIsLongestBorder(t: Target, s: seq<byte>)
    requires Matchable(t)
    ensures After(t, START, s).Running? ==> Placed(t, s, Restart(t, s, 0), After(t, START, s).st)
    decreases s
  {
    hide Placed, Step, Restart;
    if s == [] {
      EmptyIsPlaced(t);
    } else {
      var n := |s| - 1;
      var u, b := s[..n], s[n];
      assert u + [b] == s;
      HeadStageIsLongestBorder(t, u);
      if After(t, START, s).Running? {
        assert After(t, START, s) == Step(t, After(t, START, u).st, b);
        RestartGrows(t, u, b, 0);
        PlacedStep(t, u, b, Restart(t, u, 0), After(t, START, u).st);
      }
    }
  }

  lemma EmptyIsPlaced(t: Target)
    ensures Restart(t, [], 0) == 0 && Placed(t, [], 0, START)
  {
    EmptyBorder(t);
  }

  lemma EmptyBorder(t: Target)
    ensures AtLongestBorder(t, [], START)
  {}

  // One byte more.

  lemma {:induction false} FirstGrows(t: Target, u: seq<byte>, b: byte, from: nat)
    requires from <= |u|
    ensures First(t, u, from).Some? ==> First(t, u + [b], from) == First(t, u, from)
    ensures First(t, u, from).None? && |u| >= from + 3 && Occurs(t, u + [b], |u| - 3) ==>
              First(t, u + [b], from) == Some(|u| - 3)
    ensures First(t, u, from).None? && !(|u| >= from + 3 && Occurs(t, u + [b], |u| - 3)) ==>
              First(t, u + [b], from).None?
    decreases |u| - from
  {
    hide Occurs;
    OccursGrows(t, u, b, from);
    if from < |u| { FirstGrows(t, u, b, from + 1); }
  }

  lemma OccursGrows(t: Target, u: seq<byte>, b: byte, i: nat)
    ensures i + 4 <= |u| ==> Occurs(t, u + [b], i) == Occurs(t, u, i)
    ensures i + 4 > |u| + 1 ==> !Occurs(t, u + [b], i)
    ensures i + 4 > |u| ==> !Occurs(t, u, i)
  {}

  lemma ValidGrows(t: Target, u: seq<byte>, b: byte, i: nat)
    requires TailAt(t, i) < |u|
    ensures Valid(t, u + [b], i) == Valid(t, u, i)
  {
    hide Ccitt.Checks, Target.Size;
    assert PayloadAt(t, u + [b], i) == PayloadAt(t, u, i);
  }

  /** The restart moves on from where it was. */
  lemma {:induction false} RestartGrows(t: Target, u: seq<byte>, b: byte, from: nat)
    requires from <= |u|
    ensures Restart(t, u + [b], from) == Restart(t, u + [b], Restart(t, u, from))
    decreases |u| - from
  {
    hide Valid, First;
    FirstGrows(t, u, b, from);
    match First(t, u, from) {
      case None =>
      case Some(i) =>
        if TailAt(t, i) < |u| && !Valid(t, u, i) {
          ValidGrows(t, u, b, i);
          RestartGrows(t, u, b, TailAt(t, i));
        }
    }
  }

  /** One byte more: the machine moves with the restart. */
  lemma PlacedStep(t: Target, u: seq<byte>, b: byte, from: nat, st: State)
    requires Matchable(t) && from <= |u| && Placed(t, u, from, st) && Step(t, st, b).Running?
    ensures Placed(t, u + [b], Restart(t, u + [b], from), Step(t, st, b).st)
  {
    hide Placed, Step, Restart;
    if st.stage.Tail? {
      TailPlaced(t, u, b, from, st);
    } else if IsHead(st) {
      HeadPlaced(t, u, b, from, st);
    } else {
      BodyPlaced(t, u, b, from, st);
    }
  }

  lemma HeadPlaced(t: Target, u: seq<byte>, b: byte, from: nat, st: State)
    requires Matchable(t) && from <= |u| && Placed(t, u, from, st) && IsHead(st) && Step(t, st, b).Running?
    ensures Placed(t, u + [b], Restart(t, u + [b], from), Step(t, st, b).st)
  {
    hide First, Valid, Step, WellFormed, Occurs, Ends;
    var s, st' := u + [b], Step(t, st, b).st;
    var v := u[from..];
    assert s[from..] == v + [b];
    FirstGrows(t, u, b, from);
    NotYetWhole(t, s, from);
    StepKeepsWellFormed(t, st, b);
    OccursBack(t, s, from);
    if First(t, s, from).Some? {
      PrefixIsComplete(t, v, b, st);
      assert s[|u| - 3..] == t.Prefix() by { OccursSpells(t, s, |u| - 3); }
    } else {
      BorderStep(t, v, b, st);
    }
  }

  /** A candidate that begins at the last four bytes is not complete. */
  lemma NotYetWhole(t: Target, s: seq<byte>, from: nat)
    requires from <= |s|
    requires First(t, s, from).Some? ==> First(t, s, from).value + 6 >= |s|
    ensures Restart(t, s, from) == from
  {
    hide First, Valid;
  }

  lemma OccursBack(t: Target, s: seq<byte>, from: nat)
    requires from <= |s|
    ensures |s| >= from + 4 ==> Occurs(t, s, |s| - 4) == Occurs(t, s[from..], |s[from..]| - 4)
  {}

  lemma OccursSpells(t: Target, s: seq<byte>, i: nat)
    requires Occurs(t, s, i) && i + 4 == |s|
    ensures s[i..] == t.Prefix()
  {}

  /** The byte that completes FE FE CMD LEN takes the machine into the body stages. */
  lemma PrefixIsComplete(t: Target, u: seq<byte>, b: byte, st: State)
    requires Matchable(t) && AtLongestBorder(t, u, st)
    requires |u| >= 3 && Occurs(t, u + [b], |u| - 3)
    ensures Step(t, st, b).Running? && !IsHead(Step(t, st, b).st)
    ensures History(t, Step(t, st, b).st) == t.Prefix()
  {
    hide Ends, Occurs;
    EndsFour(t, u + [b]);
    EndsNext(t, u, b);
  }

  lemma BodyPlaced(t: Target, u: seq<byte>, b: byte, from: nat, st: State)
    requires from <= |u| && Placed(t, u, from, st) && st.stage in {Payload, CrcHi, CrcLo}
    ensures Step(t, st, b).Running?
    ensures Placed(t, u + [b], Restart(t, u + [b], from), Step(t, st, b).st)
  {
    hide First, Valid, Step, WellFormed, History, AtLongestBorder;
    var s := u + [b];
    var i := First(t, u, from).value;
    BodyGrows(t, st, b);
    StepKeepsWellFormed(t, st, b);
    FirstGrows(t, u, b, from);
    HistoryIsShort(t, st);
    BodyStays(t, st, b);
    assert TailAt(t, i) >= |s|;
    assert s[i..] == u[i..] + [b];
  }

  lemma HistoryIsShort(t: Target, st: State)
    requires WellFormed(t, st) && !IsHead(st)
    ensures |History(t, st)| <= t.Size() + 6
    ensures !st.stage.Tail? ==> |History(t, st)| < t.Size() + 6
    ensures st.stage.Tail? ==> |History(t, st)| == t.Size() + 6
  {}

  lemma BodyStays(t: Target, st: State, b: byte)
    requires st.stage in {Payload, CrcHi, CrcLo}
    ensures Step(t, st, b).Running? && !IsHead(Step(t, st, b).st)
  {}

  lemma TailPlaced(t: Target, u: seq<byte>, b: byte, from: nat, st: State)
    requires from <= |u| && Placed(t, u, from, st) && st.stage.Tail? && Step(t, st, b).Running?
    ensures Placed(t, u + [b], Restart(t, u + [b], from), Step(t, st, b).st)
  {
    hide First, Valid, Step, WellFormed, History, AtLongestBorder, Target.Size;
    var s, st' := u + [b], Step(t, st, b).st;
    var i := First(t, u, from).value;
    StepKeepsWellFormed(t, st, b);
    FirstGrows(t, u, b, from);
    HistoryIsShort(t, st);
    assert TailAt(t, i) == |u|;
    assert s[i..] == History(t, st) + [b];
    TailJudges(t, st, [b]);
    ValidShifts(t, s, i, 0);
    RestartRejects(t, s, from);
    FirstOfOne(t, s, |u|);
    assert s[|u|..] == [b];
    BorderOfOne(t, st, b);
  }

  lemma RestartRejects(t: Target, s: seq<byte>, from: nat)
    requires from <= |s| && First(t, s, from).Some?
    requires TailAt(t, First(t, s, from).value) == |s| - 1 && !Valid(t, s, First(t, s, from).value)
    ensures Restart(t, s, from) == |s| - 1
  {
    hide Valid, Target.Size;
    FirstOfOne(t, s, |s| - 1);
  }

  lemma FirstOfOne(t: Target, s: seq<byte>, from: nat)
    requires from + 1 == |s|
    ensures First(t, s, from).None?
  {}

  lemma BorderOfOne(t: Target, st: State, b: byte)
    requires WellFormed(t, st) && st.stage.Tail? && Step(t, st, b).Running?
    ensures IsHead(Step(t, st, b).st) && AtLongestBorder(t, [b], Step(t, st, b).st)
  {
    hide Ends, Ccitt.Checks, Target.Size;
    assert [] + [b] == [b];
    EndsNext(t, [], b);
    EndsFour(t, []);
    EndsOfNothing(t);
  }

  lemma EndsOfNothing(t: Target)
    ensures forall k | 0 < k <= 4 :: !Ends(t, [], k)
  {}

  lemma EndsSnoc(t: Target, u: seq<byte>, b: byte, k: nat)
    requires 0 < k <= 4
    ensures Ends(t, u + [b], k) <==> Ends(t, u, k - 1) && b == t.Prefix()[k - 1]
  {
    var s := u + [b];
    if k <= |s| {
      assert s[|s| - k..] == u[|u| - (k - 1)..] + [b];
      EndsSlice(t, s, k);
      EndsSlice(t, u, k - 1);
      assert t.Prefix()[..k] == t.Prefix()[..k - 1] + [t.Prefix()[k - 1]];
    }
  }

  lemma EndsSlice(t: Target, s: seq<byte>, k: nat)
    requires k <= 4 && k <= |s|
    ensures Ends(t, s, k) <==> s[|s| - k..] == t.Prefix()[..k]
  {
    var e := s[|s| - k..];
    if e == t.Prefix()[..k] {
      forall j | 0 <= j < k ensures s[|s| - k + j] == t.Prefix()[j] {
        assert s[|s| - k + j] == e[j];
      }
    }
  }

  lemma EndsFour(t: Target, s: seq<byte>)
    ensures Ends(t, s, 4) <==> |s| >= 4 && Occurs(t, s, |s| - 4)
    ensures Ends(t, s, 0)
  {
    if |s| >= 4 {
      var p := t.Prefix();
      assert p[0] == HEAD && p[1] == HEAD && p[2] == t.cmd && p[3] == t.len;
      if Ends(t, s, 4) {
        assert s[|s| - 4 + 0] == p[0] && s[|s| - 4 + 1] == p[1];
        assert s[|s| - 4 + 2] == p[2] && s[|s| - 4 + 3] == p[3];
      }
    }
  }

  lemma EndsNext(t: Target, u: seq<byte>, b: byte)
    ensures Ends(t, u, 0) && Ends(t, u + [b], 0)
    ensures Ends(t, u + [b], 1) <==> b == HEAD
    ensures Ends(t, u + [b], 2) <==> Ends(t, u, 1) && b == HEAD
    ensures Ends(t, u + [b], 3) <==> Ends(t, u, 2) && b == t.cmd
    ensures Ends(t, u + [b], 4) <==> Ends(t, u, 3) && b == t.len
  {
    hide Ends;
    EndsFour(t, u);
    EndsFour(t, u + [b]);
    EndsSnoc(t, u, b, 1);
    EndsSnoc(t, u, b, 2);
    EndsSnoc(t, u, b, 3);
    EndsSnoc(t, u, b, 4);
  }

  lemma BorderStep(t: Target, u: seq<byte>, b: byte, st: State)
    requires Matchable(t) && AtLongestBorder(t, u, st)
    requires |u| >= 3 ==> !Occurs(t, u + [b], |u| - 3)
    ensures Step(t, st, b).Running? && AtLongestBorder(t, u + [b], Step(t, st, b).st)
  {
    hide Ends, Occurs;
    EndsFour(t, u + [b]);
    EndsNext(t, u, b);
    BorderChain(t, u);
    match st.stage {
      case Head1 =>
      case Head2 =>
      case Cmd =>
      case Len =>
    }
  }

  /** A stream that ends with FE FE ends with FE; one that ends with FE FE CMD does not, unless CMD is
      FE. */
  lemma BorderChain(t: Target, u: seq<byte>)
    ensures Ends(t, u, 2) ==> Ends(t, u, 1)
    ensures Ends(t, u, 3) && t.cmd != HEAD ==> !Ends(t, u, 1) && !Ends(t, u, 2)
  {
    if |u| >= 3 {
      EndsLast(t, u, 1);
      EndsLast(t, u, 2);
      EndsLast(t, u, 3);
    } else if |u| == 2 {
      EndsLast(t, u, 1);
      EndsLast(t, u, 2);
    }
  }

  lemma EndsLast(t: Target, u: seq<byte>, k: nat)
    requires 0 < k <= 3 && k <= |u|
    ensures Ends(t, u, k) ==> u[|u| - 1] == t.Prefix()[k - 1]
    ensures k == 1 && u[|u| - 1] == HEAD ==> Ends(t, u, k)
  {
    if Ends(t, u, k) { assert u[|u| - k + (k - 1)] == t.Prefix()[k - 1]; }
  }

  // ---- from the wire to the record ---------------------------------------------------------------------

  /** A reply that comes after noise is received, and the events it took are used up. */
  lemma ReplyIsReceived(t: Target, noise: seq<byte>, payload: seq<byte>, post: seq<byte>, ev: seq<Event>)
    requires t.cmd != HEAD && t.len != HEAD && |payload| == t.Size()
    requires forall j | 0 <= j < |noise| :: !Occurs(t, noise, j)
    requires Stream(ev) == noise + FrameOf(t, payload) + post
    ensures ScudProtocol.Received(t, ev) == Some(payload)
    ensures ScudProtocol.Left(t, ev) == Rest(ev, |noise| + |FrameOf(t, payload)|)
  {
    hide FrameOf, Scan, Run, Occurs, Rest, Stream, Target.Size;
    forall i | 0 <= i < |noise| ensures !Occurs(t, noise + FrameOf(t, payload), i) {
      NoiseAlone(t, noise, payload, i);
    }
    SelfSynchronises(t, noise, payload, post);
    ScudProtocol.StartIsScan(t, Stream(ev));
  }

  /** End to end: the battery's 0x61 reply, byte for byte, behind any noise in which FE FE 61 1C does not occur.
      If it reports cell extremes, the round reads exactly the record of its fields. */
  lemma ReplyBecomesRecord(noise: seq<byte>, f: UserFields, post: seq<byte>, ev: seq<Event>, wrote: ScudProtocol.Wrote,
                           record: Option<BatteryStatus>)
    requires Encodable(f) && (f.highest != 0 || f.lowest != 0) && wrote.userInfo
    requires forall j | 0 <= j < |noise| - 3 ::
               noise[j] != 0xFE || noise[j + 1] != 0xFE || noise[j + 2] != 0x61 || noise[j + 3] != 28
    requires Stream(ev) == noise + ([0xFE, 0xFE, 0x61, 28] + UserPayload(f)
                                    + Ccitt.WireBytes(Ccitt.Crc([0x61, 28] + UserPayload(f))) + [0xBB]) + post
    requires ScudProtocol.RoundRead(ev, wrote, record)
    ensures record == Some(RecordOf(f))
  {
    hide UserPayload, RecordOf, Ccitt.Crc, Ccitt.WireBytes, Stream, FrameOf, UserInfo, OmitsExtremes;
    hide ScudProtocol.Received, ScudProtocol.Left, Target.Size;
    var t := ScudProtocol.USER_INFO;
    ScudProtocol.Sizes();
    UserInfoFrame(UserPayload(f));
    ReplyIsReceived(t, noise, UserPayload(f), post, ev);
    UserInfoRoundTrip(f);
  }

  /** If it reports none, and the 0x31 reply brings cells, the extremes are those of the cells that are not zero;
      without such a reply, or without such cells, they stay zero. */
  lemma OmittedExtremesAreBackfilled(f: UserFields, words: Option<seq<nat>>, ev: seq<Event>,
                                     wrote: ScudProtocol.Wrote, record: Option<BatteryStatus>)
    requires Encodable(f) && f.highest == 0 && f.lowest == 0 && wrote.userInfo
    requires words.Some? ==> |words.value| == 19 && AreWords(words.value)
    requires ScudProtocol.Received(ScudProtocol.USER_INFO, ev) == Some(UserPayload(f))
    requires var summary := if wrote.summary
        then ScudProtocol.Received(ScudProtocol.SUMMARY, ScudProtocol.Left(ScudProtocol.USER_INFO, ev)) else None;
      summary == match words case None => None case Some(w) => Some(Words(w))
    requires ScudProtocol.RoundRead(ev, wrote, record)
    ensures record.Some?
    ensures words.None? || !HasCell(words.value[..15]) ==> record == Some(RecordOf(f))
    ensures words.Some? && HasCell(words.value[..15]) ==>
              && IsHighest(words.value[..15], record.value.maxCellVoltage)
              && IsLowest(words.value[..15], record.value.minCellVoltage)
              && record.value == RecordOf(f).(maxCellVoltage := record.value.maxCellVoltage,
                                              minCellVoltage := record.value.minCellVoltage)
  {
    hide UserPayload, RecordOf, Words, UserInfo, OmitsExtremes, IsSnapshot, HasCell, IsHighest, IsLowest;
    hide ScudProtocol.Received, ScudProtocol.Left, Target.Size, CellsOf;
    ScudProtocol.Sizes();
    UserInfoRoundTrip(f);
    SnapshotOfFields(record.value, f, words);
  }

  /** The two frames the daemon waits for. */
  lemma UserInfoFrame(payload: seq<byte>)
    ensures FrameOf(ScudProtocol.USER_INFO, payload)
         == [0xFE, 0xFE, 0x61, 28] + payload + Ccitt.WireBytes(Ccitt.Crc([0x61, 28] + payload)) + [0xBB]
    ensures FrameOf(ScudProtocol.SUMMARY, payload)
         == [0xFE, 0xFE, 0x31, 38] + payload + Ccitt.WireBytes(Ccitt.Crc([0x31, 38] + payload)) + [0xBB]
  {
    hide Ccitt.Crc, Ccitt.WireBytes;
  }
}
