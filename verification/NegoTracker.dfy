/** The tracker that follows a group-owner negotiation through the frames sent and received (`rtw_p2p_check_frames`). */
module NegoTracker {
  import opened Bytes

  const UNSET := 0xff

  datatype Kind = Request | Response | Confirm

  /** What the tracker reads of a frame; the peer is the receiver of a frame sent, the sender of one received. */
  datatype Frame = Frame(
    kind: Kind, sent: bool, token: byte, peer: Mac, status: Option<byte>, intent: Option<byte>,
    opCh: Option<byte>, listenCh: Option<byte>)

  /** `rtw_wdev_nego_info`: state 0 after a request, 1 after its response, 2 after the confirmation. */
  datatype NegoInfo = NegoInfo(
    state: byte, peer: Mac, active: byte, token: byte, status: byte,
    reqIntent: byte, reqOpCh: byte, reqListenCh: byte, rspIntent: byte, rspOpCh: byte, confOpCh: byte)

  function Fresh(): NegoInfo {
    NegoInfo(UNSET, [0, 0, 0, 0, 0, 0], UNSET, 0, UNSET, UNSET, 0, 0, UNSET, 0, 0)
  }

  function Or(b: Option<byte>, otherwise: byte): byte {
    if b.Some? then b.value else otherwise
  }

  predicate Matches(n: NegoInfo, f: Frame, state: byte) {
    n.token == f.token && n.state == state && n.peer == f.peer
  }

  function Step(n: NegoInfo, f: Frame): NegoInfo {
    match f.kind
    case Request =>
      (if n.token != f.token then Fresh() else n)
        .(peer := f.peer, active := if f.sent then 1 else 0, token := f.token, reqIntent := Or(f.intent, 0),
          reqOpCh := Or(f.opCh, UNSET), reqListenCh := Or(f.listenCh, UNSET), state := 0)
    case Response =>
      if !Matches(n, f, 0) then n
      else n.(status := Or(f.status, UNSET), rspIntent := Or(f.intent, 0), rspOpCh := Or(f.opCh, UNSET), state := 1,
              token := if f.status != Some(0) then 0 else n.token)
    case Confirm =>
      if !Matches(n, f, 1) then n
      else n.(status := Or(f.status, UNSET), confOpCh := Or(f.opCh, 0), state := 2, token := 0)
  }

  function Track(frames: seq<Frame>): NegoInfo {
    if frames == [] then Fresh() else Step(Track(frames[..|frames| - 1]), frames[|frames| - 1])
  }

  class Tracker {
    var info: NegoInfo

    constructor ()
      ensures info == Track([])
    {
      info := Fresh();
    }

    /** The negotiation cases of `rtw_p2p_check_frames`. */
    method CheckFrame(f: Frame)
      modifies this
      ensures info == Step(old(info), f)
    {
      match f.kind {
        case Request =>
          if info.token != f.token {
            info := Fresh();
          }
          info := info.(peer := f.peer, active := if f.sent then 1 else 0, token := f.token);
          info := info.(reqOpCh := Or(f.opCh, UNSET), reqListenCh := Or(f.listenCh, UNSET));
          info := info.(reqIntent := Or(f.intent, 0));
          info := info.(state := 0);
        case Response =>
          if info.token == f.token && info.state == 0 && info.peer == f.peer {
            info := info.(status := Or(f.status, UNSET), rspOpCh := Or(f.opCh, UNSET));
            info := info.(rspIntent := Or(f.intent, 0), state := 1);
            if f.status != Some(0) {
              info := info.(token := 0);
            }
          }
        case Confirm =>
          if info.token == f.token && info.state == 1 && info.peer == f.peer {
            info := info.(status := Or(f.status, UNSET), confOpCh := Or(f.opCh, 0), state := 2);
            info := info.(token := 0);
          }
      }
    }
  }

  // ----- what a sequence of frames says by itself

  predicate SameDialogue(f: Frame, g: Frame) {
    f.token == g.token && f.peer == g.peer
  }

  ghost predicate IsLastRequest(frames: seq<Frame>, r: nat) {
    && r < |frames| && frames[r].kind == Request
    && forall k :: r < k < |frames| ==> frames[k].kind != Request
  }

  ghost predicate NoneBefore(frames: seq<Frame>, kind: Kind, r: nat, from: nat, s: nat)
    requires r < |frames| && s <= |frames|
  {
    forall k :: from < k < s ==> !(frames[k].kind == kind && SameDialogue(frames[r], frames[k]))
  }

  /** Frame s is the first of a kind behind frame `from` that belongs to the dialogue of frame r. */
  ghost predicate IsFirst(frames: seq<Frame>, kind: Kind, r: nat, from: nat, s: nat) {
    && r <= from < s < |frames| && frames[s].kind == kind && SameDialogue(frames[r], frames[s])
    && NoneBefore(frames, kind, r, from, s)
  }

  /** The last request was answered with success, first thing in its dialogue, and not confirmed since. */
  ghost predicate AwaitsConfirm(frames: seq<Frame>, r: nat, s: nat) {
    && IsLastRequest(frames, r) && IsFirst(frames, Response, r, r, s) && frames[s].status == Some(0)
    && NoneBefore(frames, Confirm, r, s, |frames|)
  }

  /** A confirmation of token zero from the peer of a request. */
  predicate MeetsRefusal(req: Frame, f: Frame) {
    f.kind == Confirm && f.token == 0 && f.peer == req.peer
  }

  ghost predicate NoZeroConfirm(frames: seq<Frame>, r: nat, s: nat)
    requires r < |frames|
  {
    forall k :: s < k < |frames| ==> !MeetsRefusal(frames[r], frames[k])
  }

  /**
   The last request was refused by the first response of its dialogue, and its peer has confirmed token zero not since.
   */
  ghost predicate Refused(frames: seq<Frame>, r: nat, s: nat) {
    && IsLastRequest(frames, r) && IsFirst(frames, Response, r, r, s) && frames[s].status != Some(0)
    && NoZeroConfirm(frames, r, s)
  }

  // ----- the tracker says the same

  ghost predicate NoRequest(n: NegoInfo, frames: seq<Frame>) {
    n == Fresh() && forall k :: 0 <= k < |frames| ==> frames[k].kind != Request
  }

  /** A number from a frame, or what stands for none. */
  predicate Is(n: byte, b: Option<byte>, none: byte) {
    n == match b case Some(v) => v case None => none
  }

  /** What is on record of a request. */
  predicate RecordsRequest(n: NegoInfo, f: Frame) {
    && n.peer == f.peer && n.active == (if f.sent then 1 else 0)
    && Is(n.reqIntent, f.intent, 0) && Is(n.reqOpCh, f.opCh, 255) && Is(n.reqListenCh, f.listenCh, 255)
  }

  /** What is on record of a response. */
  predicate RecordsResponse(n: NegoInfo, f: Frame) {
    Is(n.rspIntent, f.intent, 0) && Is(n.rspOpCh, f.opCh, 255)
  }

  ghost predicate Knows(n: NegoInfo, frames: seq<Frame>, r: nat)
    requires r < |frames|
  {
    n.token == frames[r].token && RecordsRequest(n, frames[r])
  }

  ghost predicate Unanswered(n: NegoInfo, frames: seq<Frame>, r: nat) {
    IsLastRequest(frames, r) && NoneBefore(frames, Response, r, r, |frames|) && n.state == 0 && Knows(n, frames, r)
  }

  ghost predicate Accepted(n: NegoInfo, frames: seq<Frame>, r: nat, s: nat) {
    && AwaitsConfirm(frames, r, s) && n.state == 1 && Knows(n, frames, r)
    && RecordsResponse(n, frames[s]) && n.status == 0
  }

  /** Refused, or confirmed already. The token is cleared, but a refusal leaves the state a confirmation looks for. */
  ghost predicate Over(n: NegoInfo, frames: seq<Frame>, r: nat, s: nat) {
    && IsLastRequest(frames, r) && IsFirst(frames, Response, r, r, s)
    && n.token == 0 && RecordsRequest(n, frames[r]) && RecordsResponse(n, frames[s])
    && (if frames[s].status == Some(0) then n.state == 2 && !NoneBefore(frames, Confirm, r, s, |frames|)
        else if NoZeroConfirm(frames, r, s) then n.state == 1 && Is(n.status, frames[s].status, 255)
        else n.state == 2)
  }

  /** The four situations a sequence of frames can be in, with what the tracker then holds. */
  ghost predicate Tells(n: NegoInfo, frames: seq<Frame>, r: nat, s: nat) {
    NoRequest(n, frames) || Unanswered(n, frames, r) || Accepted(n, frames, r, s) || Over(n, frames, r, s)
  }

  lemma MoreFrames(frames: seq<Frame>, f: Frame, kind: Kind, r: nat, from: nat)
    requires r < |frames| && from < |frames|
    ensures NoneBefore(frames + [f], kind, r, from, |frames| + 1) <==>
              NoneBefore(frames, kind, r, from, |frames|) && !(f.kind == kind && SameDialogue(frames[r], f))
    ensures f.kind != Request ==> (IsLastRequest(frames + [f], r) <==> IsLastRequest(frames, r))
    ensures forall s: nat :: s < |frames| ==>
              (IsFirst(frames + [f], kind, r, from, s) <==> IsFirst(frames, kind, r, from, s))
    ensures NoZeroConfirm(frames + [f], r, from) <==> NoZeroConfirm(frames, r, from) && !MeetsRefusal(frames[r], f)
    ensures IsFirst(frames + [f], kind, r, from, |frames|) <==>
              r <= from && NoneBefore(frames, kind, r, from, |frames|) && f.kind == kind && SameDialogue(frames[r], f)
  {
    var more := frames + [f];
    assert forall k :: 0 <= k < |frames| ==> more[k] == frames[k];
    assert more[|frames|] == f;
  }

  lemma RequestTells(n: NegoInfo, frames: seq<Frame>, f: Frame)
    requires f.kind == Request
    ensures Unanswered(Step(n, f), frames + [f], |frames|)
  {
  }

  lemma NoRequestTells(n: NegoInfo, frames: seq<Frame>, f: Frame)
    requires NoRequest(n, frames) && f.kind != Request
    ensures NoRequest(Step(n, f), frames + [f])
  {
  }

  lemma InLog(frames: seq<Frame>, r: nat)
    requires IsLastRequest(frames, r)
    ensures r < |frames|
  {
  }

  lemma NoneYet(frames: seq<Frame>, kind: Kind, r: nat, s: nat)
    requires r < |frames| && s + 1 == |frames|
    ensures NoneBefore(frames, kind, r, s, |frames|) && NoZeroConfirm(frames, r, s)
  {
  }

  lemma UnansweredTells(n: NegoInfo, frames: seq<Frame>, r: nat, f: Frame)
    requires Unanswered(n, frames, r) && f.kind != Request
    ensures Tells(Step(n, f), frames + [f], r, |frames|)
  {
    hide IsLastRequest, IsFirst, NoneBefore, NoZeroConfirm;
    var more := frames + [f];
    InLog(frames, r);
    assert more[|frames|] == f && more[r] == frames[r];
    MoreFrames(frames, f, Response, r, r);
    NoneYet(more, Confirm, r, |frames|);
  }

  lemma IsInLog(frames: seq<Frame>, kind: Kind, r: nat, from: nat, s: nat)
    requires IsFirst(frames, kind, r, from, s)
    ensures s < |frames|
  {
  }

  lemma AcceptedTells(n: NegoInfo, frames: seq<Frame>, r: nat, s: nat, f: Frame)
    requires Accepted(n, frames, r, s) && f.kind != Request
    ensures Tells(Step(n, f), frames + [f], r, s)
  {
    hide IsLastRequest, IsFirst, NoneBefore, NoZeroConfirm;
    var more := frames + [f];
    InLog(frames, r);
    IsInLog(frames, Response, r, r, s);
    assert more[s] == frames[s] && more[r] == frames[r];
    MoreFrames(frames, f, Response, r, r);
    MoreFrames(frames, f, Confirm, r, s);
  }

  lemma OverTells(n: NegoInfo, frames: seq<Frame>, r: nat, s: nat, f: Frame)
    requires Over(n, frames, r, s) && f.kind != Request
    ensures Over(Step(n, f), frames + [f], r, s)
  {
    hide IsLastRequest, IsFirst, NoneBefore, NoZeroConfirm;
    var more := frames + [f];
    InLog(frames, r);
    IsInLog(frames, Response, r, r, s);
    assert more[s] == frames[s] && more[r] == frames[r];
    MoreFrames(frames, f, Response, r, r);
    MoreFrames(frames, f, Confirm, r, s);
  }

  lemma StepTells(n: NegoInfo, frames: seq<Frame>, r: nat, s: nat, f: Frame) returns (r': nat, s': nat)
    requires Tells(n, frames, r, s)
    ensures Tells(Step(n, f), frames + [f], r', s')
  {
    hide NoRequest, Unanswered, Accepted, Over, Step;
    r', s' := r, s;
    if f.kind == Request {
      r' := |frames|;
      RequestTells(n, frames, f);
    } else if NoRequest(n, frames) {
      NoRequestTells(n, frames, f);
    } else if Unanswered(n, frames, r) {
      s' := |frames|;
      UnansweredTells(n, frames, r, f);
    } else if Accepted(n, frames, r, s) {
      AcceptedTells(n, frames, r, s, f);
    } else {
      OverTells(n, frames, r, s, f);
    }
  }

  lemma FreshTells()
    ensures Tells(Fresh(), [], 0, 0)
  {
  }

  lemma {:induction false} TrackTells(frames: seq<Frame>) returns (r: nat, s: nat)
    ensures Tells(Track(frames), frames, r, s)
  {
    hide Tells, Step;
    if frames == [] {
      r, s := 0, 0;
      FreshTells();
    } else {
      var before, f := frames[..|frames| - 1], frames[|frames| - 1];
      assert frames == before + [f];
      r, s := TrackTells(before);
      r, s := StepTells(Track(before), before, r, s, f);
    }
  }

  lemma LastIsOne(frames: seq<Frame>, r: nat, s: nat, q: nat, t: nat, n: NegoInfo)
    requires Tells(n, frames, r, s) && (AwaitsConfirm(frames, q, t) || Refused(frames, q, t))
    ensures q == r && t == s
    ensures if AwaitsConfirm(frames, q, t) then Accepted(n, frames, r, s) && !Refused(frames, q, t)
            else Over(n, frames, r, s)
  {
  }

  /**
   Over all sequences of frames: a confirmation is taken exactly when it belongs to the last request, which was answered
   with success by the first response of its dialogue and not confirmed since; or when it carries token zero, comes from
   that request's peer, and the request was refused. The intents the tracker then compares, and all else that is on
   record, are those of that request and that response.
   */
  lemma ConfirmTakenIff(frames: seq<Frame>, f: Frame)
    ensures Matches(Track(frames), f, 1) <==>
              exists r: nat, s: nat ::
                || (AwaitsConfirm(frames, r, s) && SameDialogue(frames[r], f))
                || (Refused(frames, r, s) && f.token == 0 && f.peer == frames[r].peer)
    ensures forall r: nat, s: nat :: AwaitsConfirm(frames, r, s) || Refused(frames, r, s) ==>
              var n := Track(frames);
              RecordsRequest(n, frames[r]) && RecordsResponse(n, frames[s]) && Is(n.status, frames[s].status, 255)
  {
    hide Track;
    var r, s := TrackTells(frames);
    forall q: nat, t: nat | AwaitsConfirm(frames, q, t) || Refused(frames, q, t)
      ensures q == r && t == s && (AwaitsConfirm(frames, q, t) ==> Accepted(Track(frames), frames, r, s))
      ensures Refused(frames, q, t) ==> Over(Track(frames), frames, r, s)
    {
      LastIsOne(frames, r, s, q, t, Track(frames));
    }
    if Matches(Track(frames), f, 1) {
      assert Accepted(Track(frames), frames, r, s) || Over(Track(frames), frames, r, s);
    }
  }

  /**
   A request starts over unless it repeats the token, and a confirmation that is taken leaves its status and channel.
   */
  lemma RecordAfter(n: NegoInfo, f: Frame)
    ensures var m := Step(n, f);
            && (f.kind == Request ==>
                  && m.state == 0 && m.token == f.token && RecordsRequest(m, f)
                  && (if f.token == n.token
                      then m.status == n.status && m.rspIntent == n.rspIntent && m.rspOpCh == n.rspOpCh
                           && m.confOpCh == n.confOpCh
                      else m.status == 255 && m.rspIntent == 255 && m.rspOpCh == m.confOpCh == 0))
            && (f.kind == Confirm && Matches(n, f, 1) ==>
                  && m.state == 2 && m.token == 0 && Is(m.status, f.status, 255) && Is(m.confOpCh, f.opCh, 0)
                  && m.(state := n.state, token := n.token, status := n.status, confOpCh := n.confOpCh) == n)
            && (f.kind == Confirm && !Matches(n, f, 1) ==> m == n)
            && (f.kind == Response && !Matches(n, f, 0) ==> m == n)
  {
  }

  /** A confirmation that carries a token is taken only for a dialogue in which a success awaits it. */
  lemma TokensAreSound(frames: seq<Frame>, f: Frame)
    requires f.token != 0
    ensures Matches(Track(frames), f, 1) <==>
              exists r: nat, s: nat :: AwaitsConfirm(frames, r, s) && SameDialogue(frames[r], f)
  {
    ConfirmTakenIff(frames, f);
  }

  /**
   The tracker is misled, taking a confirmation that no success awaits, exactly when the confirmation has token zero and
   comes from the peer of a request that was refused: the refusal clears the token but leaves the state.
   */
  lemma MisledIff(frames: seq<Frame>, f: Frame)
    ensures Matches(Track(frames), f, 1)
            && !(exists r: nat, s: nat :: AwaitsConfirm(frames, r, s) && SameDialogue(frames[r], f))
       <==> f.token == 0 && exists r: nat, s: nat :: Refused(frames, r, s) && f.peer == frames[r].peer
  {
    hide Track, AwaitsConfirm, Refused;
    ConfirmTakenIff(frames, f);
    var r, s := TrackTells(frames);
    if x: nat, y: nat :| Refused(frames, x, y) {
      forall q: nat, t: nat | AwaitsConfirm(frames, q, t) ensures false {
        LastIsOne(frames, r, s, x, y, Track(frames));
        LastIsOne(frames, r, s, q, t, Track(frames));
      }
    }
  }

  /** For instance: a request with token zero, refused, and confirmed all the same. */
  lemma ZeroTokenConfirmsRefusal(peer: Mac)
    ensures var req := Frame(Request, true, 0, peer, None, None, None, None);
            var resp := Frame(Response, false, 0, peer, Some(1), None, None, None);
            var conf := Frame(Confirm, true, 0, peer, Some(0), None, None, None);
            && Refused([req, resp], 0, 1) && Matches(Track([req, resp]), conf, 1)
            && Step(Track([req, resp]), conf).state == 2
  {
    var req := Frame(Request, true, 0, peer, None, None, None, None);
    var resp := Frame(Response, false, 0, peer, Some(1), None, None, None);
    var conf := Frame(Confirm, true, 0, peer, Some(0), None, None, None);
    assert IsFirst([req, resp], Response, 0, 0, 1);
    assert Refused([req, resp], 0, 1);
    ConfirmTakenIff([req, resp], conf);
  }

  /** As long as there was no request, nothing is on record, and no other frame is taken. */
  lemma {:induction false} NothingOnRecord(frames: seq<Frame>)
    requires forall k :: 0 <= k < |frames| ==> frames[k].kind != Request
    ensures Track(frames) == NegoInfo(255, [0, 0, 0, 0, 0, 0], 255, 0, 255, 255, 0, 0, 255, 0, 0)
  {
    if frames != [] {
      NothingOnRecord(frames[..|frames| - 1]);
    }
  }
}
