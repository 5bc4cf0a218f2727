/** Group-owner negotiation (section 3.1.4.2 of the Wi-Fi Peer-to-Peer Technical Specification): roles and channel. */
module GoNegotiation {
  import opened Bytes
  import opened Tlv
  import opened ChannelLists

  const MAX_INTENT := 15
  const SUCCESS: byte := 0
  const INFO_UNAVAILABLE: byte := 1
  const INCOMPATIBLE_PARAM: byte := 2
  const NO_COMMON_CH: byte := 7
  const BOTH_GOINTENT_15: byte := 9

  datatype Role = Disable | Device | Client | Go
  datatype Phase = Idle | TxInfoNotReady | RxInfoNotReady | Ongoing | Agreed | Failed

  /** A channel list attribute with the entries it is made of. */
  datatype ChannelAttr = ChannelAttr(content: seq<byte>, entries: seq<Item>)

  /** The attributes of one P2P element that the handlers read, each the first of its kind. */
  datatype P2pElement = P2pElement(
    status: Option<byte>,
    intent: Option<byte>,
    operatingCh: Option<byte>,
    channels: Option<ChannelAttr>)

  /** Both handlers copy the attribute into 100 bytes; its channels are then no more than that either. */
  const BUFFER := 100

  ghost predicate WellFormed(e: P2pElement) {
    e.channels.Some? ==>
      IsChannelList(e.channels.value.content, e.channels.value.entries) && |e.channels.value.content| <= BUFFER
  }

  datatype Nego = Nego(
    role: Role, phase: Phase, peerIntent: byte, operatingCh: byte, peerOperatingCh: byte, result: byte)

  /**
   The role a side takes from its own intent and the byte the peer sent: intent shifted left by one, tie breaker in bit
   0.
   */
  function RoleFor(intent: nat, peer: byte): Role {
    if intent == peer / 2 then
      if intent == MAX_INTENT then Device else if peer % 2 == 1 then Client else Go
    else if intent > peer / 2 then Go else Client
  }

  /** `rtw_p2p_nego_intent_compare`: whether the requester is the group owner. */
  predicate NegoIntentCompare(req: byte, resp: byte) {
    if req / 2 == resp / 2 then req % 2 == 1 else req / 2 > resp / 2
  }

  /** The byte the responder sends back: its own intent, and the complement of the tie breaker it was sent. */
  function ResponseByte(intent: nat, req: byte): byte
    requires intent <= MAX_INTENT
  {
    2 * intent + 1 - req % 2
  }

  function RequestByte(intent: nat, tie: nat): byte
    requires intent <= MAX_INTENT && tie <= 1
  {
    2 * intent + tie
  }

  /** The group owner's channel: its own if it is common, else the peer's if that is, else the first common one. */
  function ChooseChannel(own: byte, peers: byte, common: seq<byte>): (ch: byte)
    requires common != []
    ensures ch in common && (own in common ==> ch == own) && (own !in common && peers in common ==> ch == peers)
  {
    if own in common then own else if peers in common then peers else common[0]
  }

  function Found(ours: seq<byte>, e: P2pElement): seq<byte> {
    if e.channels.None? then [] else Resumed(Channels(e.channels.value.entries), ours, 0)
  }

  /** The peer's operating channel, zero when it sent none. */
  function PeersChannel(e: P2pElement): byte {
    if e.operatingCh.Some? then e.operatingCh.value else 0
  }

  /** The channel part of both handlers. The flag says that the loop over the elements ends here. */
  function WithChannels(n: Nego, ours: seq<byte>, e: P2pElement): (Nego, bool) {
    if e.channels.None? then (n, false)
    else
      var common := Found(ours, e);
      if common == [] then (n.(result := NO_COMMON_CH, phase := Failed), true)
      else if n.role == Go then (n.(operatingCh := ChooseChannel(n.operatingCh, PeersChannel(e), common)), false)
      else (n, false)
  }

  function AfterReqElement(n: Nego, intent: nat, ours: seq<byte>, e: P2pElement): (Nego, bool) {
    var n := n.(phase := Ongoing);
    var n := if e.intent.None? then n
             else
               var role := RoleFor(intent, e.intent.value);
               n.(peerIntent := e.intent.value, role := role,
                  result := if role == Device then BOTH_GOINTENT_15 else n.result);
    WithChannels(n, ours, e)
  }

  function AfterReq(n: Nego, intent: nat, ours: seq<byte>, es: seq<P2pElement>): Nego
    decreases |es|
  {
    if es == [] then n
    else
      var (m, stop) := AfterReqElement(n, intent, ours, es[0]);
      if stop then m else AfterReq(m, intent, ours, es[1..])
  }

  function AfterRespElement(n: Nego, intent: nat, ours: seq<byte>, e: P2pElement): (Nego, bool) {
    if e.status.Some? && e.status.value != SUCCESS then
      var phase := if e.status.value == INFO_UNAVAILABLE then RxInfoNotReady else Failed;
      (n.(phase := phase, role := Device, result := e.status.value), true)
    else
      var n := if e.intent.None? then n
               else
                 var role := RoleFor(intent, e.intent.value);
                 n.(peerIntent := e.intent.value, role := role,
                    phase := if role == Device then Failed else Agreed,
                    result := if role == Device then BOTH_GOINTENT_15 else n.result);
      WithChannels(if e.operatingCh.None? then n else n.(peerOperatingCh := e.operatingCh.value), ours, e)
  }

  function AfterResp(n: Nego, intent: nat, ours: seq<byte>, es: seq<P2pElement>): Nego
    decreases |es|
  {
    if es == [] then n
    else
      var (m, stop) := AfterRespElement(n, intent, ours, es[0]);
      if stop then m else AfterResp(m, intent, ours, es[1..])
  }

  function ReqSpec(n: Nego, intent: nat, ours: seq<byte>, hasWps: bool, hasWpsInfo: bool, es: seq<P2pElement>): Nego {
    if !hasWps || (hasWpsInfo && es == []) then n.(phase := Failed, result := INCOMPATIBLE_PARAM)
    else if !hasWpsInfo then n.(phase := TxInfoNotReady, result := INFO_UNAVAILABLE)
    else AfterReq(n, intent, ours, es)
  }

  function RespSpec(n: Nego, intent: nat, ours: seq<byte>, hasWps: bool, es: seq<P2pElement>): Nego {
    if es == [] then n.(role := Device, phase := Failed, result := INCOMPATIBLE_PARAM)
    else AfterResp(if hasWps then n else n.(phase := Failed, result := INCOMPATIBLE_PARAM), intent, ours, es)
  }

  /** The role derived once more on the confirmation, where the case of two greatest intents is not treated apart. */
  function ConfirmedRole(intent: nat, peer: byte): Role {
    if intent > peer / 2 then Go
    else if intent < peer / 2 then Client
    else if peer % 2 == 1 then Client else Go
  }

  function AfterConfirm(n: Nego, intent: nat, es: seq<P2pElement>): Nego
    decreases |es|
  {
    if es == [] then n
    else
      var e := es[0];
      if e.status.Some? && e.status.value != SUCCESS then n.(role := Device, phase := Failed, result := e.status.value)
      else
        var n := if e.status.None? then n
                 else n.(role := ConfirmedRole(intent, n.peerIntent), phase := Agreed, result := SUCCESS);
        AfterConfirm(if e.operatingCh.None? then n else n.(peerOperatingCh := e.operatingCh.value), intent, es[1..])
  }

  class WifiDirect {
    const intent: nat
    /** The channels of `channel_set`. */
    const ours: seq<byte>
    var role: Role
    var phase: Phase
    var peerIntent: byte
    var operatingCh: byte
    var peerOperatingCh: byte

    function Snapshot(result: byte): Nego
      reads this
    {
      Nego(role, phase, peerIntent, operatingCh, peerOperatingCh, result)
    }

    constructor (intent: nat, ours: seq<byte>, ch: byte)
      ensures this.intent == intent && this.ours == ours && Snapshot(SUCCESS) == Nego(Device, Idle, 0, ch, 0, SUCCESS)
    {
      this.intent, this.ours := intent, ours;
      role, phase, peerIntent, operatingCh, peerOperatingCh := Device, Idle, 0, ch, 0;
    }

    method SetRole(peer: byte) returns (both15: bool)
      modifies this`role, this`peerIntent
      ensures role == RoleFor(intent, peer) && peerIntent == peer && both15 == (role == Device)
    {
      peerIntent := peer;
      both15 := false;
      if intent == peerIntent / 2 {
        if intent == MAX_INTENT {
          role, both15 := Device, true;
        } else if peer % 2 == 1 {
          role := Client;
        } else {
          role := Go;
        }
      } else if intent > peerIntent / 2 {
        role := Go;
      } else {
        role := Client;
      }
    }

    method PickChannel(e: P2pElement, inclusioned: array<byte>, num: nat) returns (ch: byte)
      requires 0 < num <= inclusioned.Length
      ensures ch == ChooseChannel(operatingCh, PeersChannel(e), inclusioned[..num])
    {
      var own := IsChannelListOk(operatingCh, inclusioned, num);
      if own { return operatingCh; }
      var peers := if e.operatingCh.Some? then e.operatingCh.value else 0;
      var theirs := IsChannelListOk(peers, inclusioned, num);
      ch := if theirs then peers else inclusioned[0];
    }

    /** The channel list of one element, read, intersected with ours and, by a group owner, obeyed. */
    method HandleChannels(e: P2pElement, before: byte) returns (result: byte, stop: bool)
      requires WellFormed(e)
      modifies this`operatingCh, this`phase
      ensures (Snapshot(result), stop) == WithChannels(old(Snapshot(before)), ours, e)
    {
      hide Resumed, Channels, IsChannelList, ChooseChannel;
      if e.channels.None? { return before, false; }
      ChannelsFit(e.channels.value.content, e.channels.value.entries);
      var peerChList, inclusioned := new byte[BUFFER], new byte[BUFFER];
      var peerNum := GetPeerChList(e.channels.value.content, e.channels.value.entries, peerChList);
      var num := ChInclusion(ours, peerChList, peerNum, inclusioned);
      if num == 0 {
        phase := Failed;
        return NO_COMMON_CH, true;
      }
      result, stop := before, false;
      if role == Go {
        operatingCh := PickChannel(e, inclusioned, num);
      }
    }

    /** `process_p2p_group_negotation_req` on the P2P elements of a request, in their order. */
    method ProcessReq(hasWps: bool, hasWpsInfo: bool, es: seq<P2pElement>) returns (result: byte)
      requires forall k :: 0 <= k < |es| ==> WellFormed(es[k])
      modifies this
      ensures Snapshot(result) == ReqSpec(old(Snapshot(SUCCESS)), intent, ours, hasWps, hasWpsInfo, es)
    {
      hide WithChannels, WellFormed, RoleFor;
      result := SUCCESS;
      if !hasWps {
        phase := Failed;
        return INCOMPATIBLE_PARAM;
      }
      if !hasWpsInfo {
        phase := TxInfoNotReady;
        return INFO_UNAVAILABLE;
      }
      if es == [] {
        phase := Failed;
        return INCOMPATIBLE_PARAM;
      }
      var i := 0;
      while i < |es|
        invariant 0 <= i <= |es|
        invariant AfterReq(Snapshot(result), intent, ours, es[i..]) ==
                  AfterReq(old(Snapshot(SUCCESS)), intent, ours, es)
      {
        var e := es[i];
        phase := Ongoing;
        if e.intent.Some? {
          var both15 := SetRole(e.intent.value);
          if both15 {
            result := BOTH_GOINTENT_15;
          }
        }
        var stop;
        result, stop := HandleChannels(e, result);
        if stop { return; }
        i := i + 1;
      }
    }

    /** `process_p2p_group_negotation_resp`: a missing WPS element is noted but does not end the processing. */
    method ProcessResp(hasWps: bool, es: seq<P2pElement>) returns (result: byte)
      requires forall k :: 0 <= k < |es| ==> WellFormed(es[k])
      modifies this
      ensures Snapshot(result) == RespSpec(old(Snapshot(SUCCESS)), intent, ours, hasWps, es)
    {
      hide WithChannels, WellFormed, RoleFor;
      result := SUCCESS;
      if !hasWps {
        result := INCOMPATIBLE_PARAM;
        phase := Failed;
      }
      if es == [] {
        role, phase := Device, Failed;
        return INCOMPATIBLE_PARAM;
      }
      ghost var start := Snapshot(result);
      var i := 0;
      while i < |es|
        invariant 0 <= i <= |es|
        invariant AfterResp(Snapshot(result), intent, ours, es[i..]) == AfterResp(start, intent, ours, es)
      {
        var e := es[i];
        if e.status.Some? && e.status.value != SUCCESS {
          phase := if e.status.value == INFO_UNAVAILABLE then RxInfoNotReady else Failed;
          role := Device;
          return e.status.value;
        }
        if e.intent.Some? {
          var both15 := SetRole(e.intent.value);
          if both15 {
            result, phase := BOTH_GOINTENT_15, Failed;
          } else {
            phase := Agreed;
          }
        }
        if e.operatingCh.Some? {
          peerOperatingCh := e.operatingCh.value;
        }
        var stop;
        result, stop := HandleChannels(e, result);
        if stop { return; }
        i := i + 1;
      }
    }

    /** `process_p2p_group_negotation_confirm` */
    method ProcessConfirm(es: seq<P2pElement>) returns (result: byte)
      modifies this`role, this`phase, this`peerOperatingCh
      ensures Snapshot(result) == AfterConfirm(old(Snapshot(SUCCESS)), intent, es)
    {
      result := SUCCESS;
      var i := 0;
      while i < |es|
        invariant 0 <= i <= |es|
        invariant AfterConfirm(Snapshot(result), intent, es[i..]) == AfterConfirm(old(Snapshot(SUCCESS)), intent, es)
      {
        var e := es[i];
        if e.status.Some? {
          result := e.status.value;
          if result != SUCCESS {
            role, phase := Device, Failed;
            return;
          }
          phase := Agreed;
          if intent > peerIntent / 2 {
            role := Go;
          } else if intent < peerIntent / 2 {
            role := Client;
          } else if peerIntent % 2 == 1 {
            role := Client;
          } else {
            role := Go;
          }
        }
        if e.operatingCh.Some? {
          peerOperatingCh := e.operatingCh.value;
        }
        i := i + 1;
      }
    }
  }

  // ----- what the two sides come to

  predicate Opposite(a: Role, b: Role) {
    (a == Go && b == Client) || (a == Client && b == Go)
  }

  /**
   Role agreement, whatever the two intents and the requester's tie breaker: one side is group owner and the other its
   client exactly when not both intents are the greatest; which one it is is what the comparison of the two bytes says;
   and the confirmation leads the responder to the same role again exactly in those cases.
   */
  lemma RolesAgree(a: nat, b: nat, tie: nat)
    requires a <= MAX_INTENT && b <= MAX_INTENT && tie <= 1
    ensures var req := RequestByte(a, tie);
            var resp := ResponseByte(b, req);
            var requester, responder := RoleFor(a, resp), RoleFor(b, req);
            && (Opposite(requester, responder) <==> !(a == MAX_INTENT && b == MAX_INTENT))
            && (a == MAX_INTENT && b == MAX_INTENT ==> requester == responder == Device)
            && (Opposite(requester, responder) ==> (requester == Go <==> NegoIntentCompare(req, resp)))
            && (ConfirmedRole(b, req) == responder <==> Opposite(requester, responder))
  {
    var req := RequestByte(a, tie);
    assert req / 2 == a && req % 2 == tie;
    var resp := ResponseByte(b, req);
    assert resp / 2 == b && resp % 2 == 1 - tie;
  }

  lemma OneReq(n: Nego, intent: nat, ours: seq<byte>, e: P2pElement)
    ensures AfterReq(n, intent, ours, [e]) == AfterReqElement(n, intent, ours, e).0
  {
    assert [e][1..] == [];
  }

  lemma OneResp(n: Nego, intent: nat, ours: seq<byte>, e: P2pElement)
    ensures AfterResp(n, intent, ours, [e]) == AfterRespElement(n, intent, ours, e).0
  {
    assert [e][1..] == [];
  }

  /** The first element that refuses; the number of elements when none does. */
  function FirstRefusal(es: seq<P2pElement>): (k: nat)
    ensures k <= |es|
    ensures k < |es| ==> es[k].status.Some? && es[k].status.value != SUCCESS
    ensures forall j :: 0 <= j < k ==> es[j].status.None? || es[j].status.value == SUCCESS
  {
    if es == [] || (es[0].status.Some? && es[0].status.value != SUCCESS) then 0 else 1 + FirstRefusal(es[1..])
  }

  /**
   What a confirmation comes to, for any P2P elements: refused by the first element that says so; else, if an element
   has a status, agreed in the role derived once more; else left as it was. Own channel and peer intent are not touched.
   */
  lemma {:induction false} ConfirmationDecides(n: Nego, intent: nat, es: seq<P2pElement>)
    ensures var r, k := AfterConfirm(n, intent, es), FirstRefusal(es);
            && r.operatingCh == n.operatingCh && r.peerIntent == n.peerIntent
            && if k < |es| then r.role == Device && r.phase == Failed && r.result == es[k].status.value
               else if exists j :: 0 <= j < |es| && es[j].status.Some?
               then r.role == ConfirmedRole(intent, n.peerIntent) && r.phase == Agreed && r.result == SUCCESS
               else r.role == n.role && r.phase == n.phase && r.result == n.result
    decreases |es|
  {
    hide ConfirmedRole;
    if es != [] && (es[0].status.None? || es[0].status.value == SUCCESS) {
      var e, rest := es[0], es[1..];
      var m := if e.status.None? then n
               else n.(role := ConfirmedRole(intent, n.peerIntent), phase := Agreed, result := SUCCESS);
      var next := if e.operatingCh.None? then m else m.(peerOperatingCh := e.operatingCh.value);
      ConfirmationDecides(next, intent, rest);
      assert forall j :: 0 <= j < |rest| ==> rest[j] == es[j + 1];
      if j :| 0 < j < |es| && es[j].status.Some? {
        assert rest[j - 1].status.Some?;
      }
    }
  }

  predicate Complete(e: P2pElement, intent: byte) {
    e.intent == Some(intent) && e.channels.Some?
  }

  lemma FoundIsCommon(ours: seq<byte>, e: P2pElement)
    requires e.channels.Some?
    ensures forall c <- Found(ours, e) :: c in ours && c in Channels(e.channels.value.entries)
  {
    ResumedIsPartOfBoth(Channels(e.channels.value.entries), ours, 0);
  }

  /**
   The whole negotiation: a request and a response that each carry intent and channel list in one P2P element, the
   response accepting. Both sides succeed, exactly one is group owner, and its channel is one of its own channels and
   on the list the other side sent. A confirmation of success leaves the responder agreed in the same role and on the
   same channel; one with any other status leaves it without a role, failed with that status.
   */
  lemma NegotiationAgrees(
      a: nat, b: nat, tie: nat, nA: Nego, nB: Nego, oursA: seq<byte>, oursB: seq<byte>,
      req: P2pElement, resp: P2pElement, conf: P2pElement)
    requires a <= MAX_INTENT && b <= MAX_INTENT && tie <= 1 && !(a == MAX_INTENT && b == MAX_INTENT)
    requires nA.result == nB.result == SUCCESS
    requires Complete(req, RequestByte(a, tie)) && Complete(resp, ResponseByte(b, RequestByte(a, tie)))
    requires (resp.status.None? || resp.status.value == SUCCESS) && conf.status.Some?
    requires Found(oursB, req) != [] && Found(oursA, resp) != []
    ensures var responder := ReqSpec(nB, b, oursB, true, true, [req]);
            var requester := RespSpec(nA, a, oursA, true, [resp]);
            && responder.result == requester.result == SUCCESS
            && Opposite(requester.role, responder.role)
            && (responder.role == Go ==>
                  responder.operatingCh in oursB && responder.operatingCh in Channels(req.channels.value.entries))
            && (requester.role == Go ==>
                  requester.operatingCh in oursA && requester.operatingCh in Channels(resp.channels.value.entries))
    ensures var responder := ReqSpec(nB, b, oursB, true, true, [req]);
            var confirmed := AfterConfirm(responder, b, [conf]);
            && confirmed.result == conf.status.value
            && (if conf.status.value == SUCCESS
                then && confirmed.role == responder.role && confirmed.phase == Agreed
                     && confirmed.operatingCh == responder.operatingCh
                else confirmed.role == Device && confirmed.phase == Failed)
  {
    hide Resumed, Channels, RoleFor, ConfirmedRole, RequestByte, ResponseByte, AfterConfirm;
    var responder := ReqSpec(nB, b, oursB, true, true, [req]);
    ConfirmationDecides(responder, b, [conf]);
    assert FirstRefusal([conf]) == if conf.status.value == SUCCESS then 1 else 0;
    RolesAgree(a, b, tie);
    OneReq(nB, b, oursB, req);
    OneResp(nA, a, oursA, resp);
    FoundIsCommon(oursB, req);
    FoundIsCommon(oursA, resp);
  }

  /** A complete request succeeds exactly when not both intents are the greatest and a common channel is found. */
  lemma RequestSucceedsIff(a: nat, b: nat, tie: nat, n: Nego, ours: seq<byte>, e: P2pElement)
    requires a <= MAX_INTENT && b <= MAX_INTENT && tie <= 1 && n.result == SUCCESS && Complete(e, RequestByte(a, tie))
    ensures ReqSpec(n, b, ours, true, true, [e]).result == SUCCESS
       <==> !(a == MAX_INTENT && b == MAX_INTENT) && Found(ours, e) != []
    ensures Found(ours, e) == [] ==> ReqSpec(n, b, ours, true, true, [e]).phase == Failed
  {
    hide Resumed, Channels;
    OneReq(n, b, ours, e);
    assert RequestByte(a, tie) / 2 == a;
  }

  /**
   So does a complete response, if it has a WPS element and does not refuse; a refusal is passed on, whatever else is in
   it.
   */
  lemma ResponseSucceedsIff(a: nat, b: nat, req: byte, n: Nego, hasWps: bool, ours: seq<byte>, e: P2pElement)
    requires a <= MAX_INTENT && b <= MAX_INTENT && n.result == SUCCESS && Complete(e, ResponseByte(b, req))
    ensures RespSpec(n, a, ours, hasWps, [e]).result == SUCCESS
       <==> && hasWps && (e.status.None? || e.status.value == SUCCESS)
            && !(a == MAX_INTENT && b == MAX_INTENT) && Found(ours, e) != []
    ensures e.status.Some? && e.status.value != SUCCESS ==>
              && RespSpec(n, a, ours, hasWps, [e]).result == e.status.value
              && RespSpec(n, a, ours, hasWps, [e]).role == Device
  {
    hide Resumed, Channels;
    OneResp(if hasWps then n else n.(phase := Failed, result := INCOMPATIBLE_PARAM), a, ours, e);
    assert ResponseByte(b, req) / 2 == b;
  }

  /**
   With both intents at their greatest, the request is answered with failure and no role, but a confirmation would give
   one.
   */
  lemma BothGreatestFails(n: Nego, ours: seq<byte>, tie: nat, e: P2pElement, conf: P2pElement)
    requires conf.status == Some(SUCCESS) && tie <= 1
    requires Complete(e, RequestByte(MAX_INTENT, tie)) && Found(ours, e) != []
    ensures var m := ReqSpec(n, MAX_INTENT, ours, true, true, [e]);
            && m.role == Device && m.result == BOTH_GOINTENT_15
            && AfterConfirm(m, MAX_INTENT, [conf]).role == (if tie == 1 then Client else Go)
  {
    hide Resumed, Channels;
    OneReq(n, MAX_INTENT, ours, e);
    assert RequestByte(MAX_INTENT, tie) / 2 == MAX_INTENT;
  }

  // ----- any number of P2P elements

  /** The channel list of an element has nothing in common with ours. */
  predicate DeadEnd(ours: seq<byte>, e: P2pElement) {
    e.channels.Some? && Found(ours, e) == []
  }

  predicate Refuses(e: P2pElement) {
    e.status.Some? && e.status.value != 0
  }

  /** The last intent in the elements, if they have one. */
  function LastIntent(es: seq<P2pElement>): Option<byte> {
    if es == [] then None
    else if LastIntent(es[1..]).Some? then LastIntent(es[1..])
    else es[0].intent
  }

  /** Some element has the greatest intent, as ours is. */
  predicate Clashes(intent: nat, es: seq<P2pElement>) {
    intent == 15 && exists j :: 0 <= j < |es| && es[j].intent.Some? && es[j].intent.value / 2 == 15
  }

  lemma RoleSays(intent: nat, peer: byte)
    ensures RoleFor(intent, peer) == Device <==> intent == 15 && peer / 2 == 15
    ensures RoleFor(intent, peer) == Go <==> intent > peer / 2 || (intent == peer / 2 && intent != 15 && peer % 2 == 0)
    ensures RoleFor(intent, peer) != Disable
  {
  }

  lemma LookedAt(es: seq<P2pElement>, k: nat)
    requires 0 < k <= |es|
    ensures es[..k][0] == es[0] && es[..k][1..] == es[1..][..k - 1]
  {
  }

  lemma ClashesCons(intent: nat, es: seq<P2pElement>)
    requires es != []
    ensures Clashes(intent, es) <==>
              Clashes(intent, es[1..]) || (intent == 15 && es[0].intent.Some? && es[0].intent.value / 2 == 15)
  {
    assert forall j :: 0 <= j < |es| - 1 ==> es[1..][j] == es[j + 1];
    if j :| 0 < j < |es| && es[j].intent.Some? && es[j].intent.value / 2 == 15 {
      assert es[1..][j - 1] == es[j];
    }
  }

  /**
   The channel a group owner goes to: the one it has if the peer can use it, else the peer's, else the first that both
   can.
   */
  function OwnersChannel(own: byte, ours: seq<byte>, e: P2pElement): byte {
    var common := Found(ours, e);
    if e.channels.None? || own in common then own
    else if e.operatingCh.Some? && e.operatingCh.value in common then e.operatingCh.value
    else if e.operatingCh.None? && 0 in common then 0
    else if common != [] then common[0] else own
  }

  /** What one element of a request does. */
  lemma RequestElementSays(n: Nego, intent: nat, ours: seq<byte>, e: P2pElement)
    ensures var (r, stop) := AfterReqElement(n, intent, ours, e);
            && stop == DeadEnd(ours, e)
            && r.phase == (if stop then Failed else Ongoing)
            && r.result == (if stop then 7 else if Clashes(intent, [e]) then 9 else n.result)
            && r.peerIntent == (if e.intent.Some? then e.intent.value else n.peerIntent)
            && r.role == (if e.intent.Some? then RoleFor(intent, e.intent.value) else n.role)
            && r.peerOperatingCh == n.peerOperatingCh
            && r.operatingCh == (if r.role == Go && !stop then OwnersChannel(n.operatingCh, ours, e) else n.operatingCh)
  {
    hide Found, RoleFor;
    assert Clashes(intent, [e]) <==> intent == 15 && e.intent.Some? && e.intent.value / 2 == 15 by {
      ClashesCons(intent, [e]);
    }
    if e.intent.Some? {
      RoleSays(intent, e.intent.value);
    }
  }

  lemma NoClash(intent: nat)
    ensures !Clashes(intent, [])
  {
  }

  lemma OneClash(intent: nat, e: P2pElement)
    ensures Clashes(intent, [e]) <==> intent == 15 && e.intent.Some? && e.intent.value / 2 == 15
  {
    ClashesCons(intent, [e]);
  }

  /**
   A request with any number of P2P elements. They are looked at up to the first whose channels have nothing in common
   with ours, at which the request fails for that reason; role and peer intent are those of the last intent looked at,
   and without a dead end the answer is failure exactly if one of the intents clashed with ours.
   */
  lemma {:induction false} RequestSays(n: Nego, intent: nat, ours: seq<byte>, es: seq<P2pElement>, k: nat)
    requires k <= |es| && (forall j :: 0 <= j < k ==> !DeadEnd(ours, es[j])) && (k < |es| ==> DeadEnd(ours, es[k]))
    ensures var r, seen := AfterReq(n, intent, ours, es), es[..if k < |es| then k + 1 else k];
            && r.phase == (if k < |es| then Failed else if es == [] then n.phase else Ongoing)
            && r.result == (if k < |es| then 7 else if Clashes(intent, es) then 9 else n.result)
            && r.peerOperatingCh == n.peerOperatingCh
            && match LastIntent(seen)
               case None => r.peerIntent == n.peerIntent && r.role == n.role
               case Some(i) => r.peerIntent == i && r.role == RoleFor(intent, i)
    decreases |es|
  {
    hide RoleFor, DeadEnd, Clashes, AfterReqElement;
    if es == [] {
      NoClash(intent);
    } else {
      var (m, stop) := AfterReqElement(n, intent, ours, es[0]);
      RequestElementSays(n, intent, ours, es[0]);
      OneClash(intent, es[0]);
      ClashesCons(intent, es);
      LookedAt(es, if k < |es| then k + 1 else k);
      if !stop {
        RequestSays(m, intent, ours, es[1..], k - 1);
      } else {
        assert es[..1][1..] == [];
      }
    }
  }

  /** Before any element is looked at: what a request without WPS data, or without P2P elements, is answered with. */
  lemma EarlyAnswers(n: Nego, intent: nat, ours: seq<byte>, hasWps: bool, hasWpsInfo: bool, es: seq<P2pElement>)
    ensures var r := ReqSpec(n, intent, ours, hasWps, hasWpsInfo, es);
            && (!hasWps ==> r == n.(phase := Failed, result := 2))
            && (hasWps && !hasWpsInfo ==> r == n.(phase := TxInfoNotReady, result := 1))
            && (hasWps && hasWpsInfo && es == [] ==> r == n.(phase := Failed, result := 2))
  {
  }

  /** What one element of a response does. */
  lemma ResponseElementSays(n: Nego, intent: nat, ours: seq<byte>, e: P2pElement)
    ensures var (r, stop) := AfterRespElement(n, intent, ours, e);
            && stop == (Refuses(e) || DeadEnd(ours, e))
            && (Refuses(e) ==>
                  r == n.(role := Device, result := e.status.value,
                          phase := if e.status.value == 1 then RxInfoNotReady else Failed))
            && (!Refuses(e) ==>
                  && r.phase == (if stop then Failed
                                 else if e.intent.None? then n.phase
                                 else if Clashes(intent, [e]) then Failed else Agreed)
                  && r.result == (if stop then 7 else if Clashes(intent, [e]) then 9 else n.result)
                  && r.peerIntent == (if e.intent.Some? then e.intent.value else n.peerIntent)
                  && r.role == (if e.intent.Some? then RoleFor(intent, e.intent.value) else n.role)
                  && r.peerOperatingCh == (if e.operatingCh.Some? then e.operatingCh.value else n.peerOperatingCh)
                  && r.operatingCh ==
                     (if r.role == Go && !stop then OwnersChannel(n.operatingCh, ours, e) else n.operatingCh))
  {
    hide Found, RoleFor;
    OneClash(intent, e);
    if e.intent.Some? {
      RoleSays(intent, e.intent.value);
    }
  }

  /**
   A response with any number of P2P elements: they are looked at up to the first that refuses or has no common channel,
   which decides. Otherwise the requester is agreed or failed by the last intent, and fails with a clash if any had one.
   */
  lemma {:induction false} ResponseSays(n: Nego, intent: nat, ours: seq<byte>, es: seq<P2pElement>, k: nat)
    requires k <= |es| && (forall j :: 0 <= j < k ==> !Refuses(es[j]) && !DeadEnd(ours, es[j]))
    requires k < |es| ==> Refuses(es[k]) || DeadEnd(ours, es[k])
    ensures var r := AfterResp(n, intent, ours, es);
            if k < |es| && Refuses(es[k])
            then && r.role == Device && r.result == es[k].status.value
                 && r.phase == (if es[k].status.value == 1 then RxInfoNotReady else Failed)
            else if k < |es| then r.phase == Failed && r.result == 7
            else && r.result == (if Clashes(intent, es) then 9 else n.result)
                 && match LastIntent(es)
                    case None => r.peerIntent == n.peerIntent && r.role == n.role && r.phase == n.phase
                    case Some(i) =>
                      && r.peerIntent == i && r.role == RoleFor(intent, i)
                      && r.phase == if intent == 15 && i / 2 == 15 then Failed else Agreed
    decreases |es|
  {
    hide RoleFor, DeadEnd, Refuses, Clashes, AfterRespElement;
    if es == [] {
      NoClash(intent);
    } else {
      var (m, stop) := AfterRespElement(n, intent, ours, es[0]);
      ResponseElementSays(n, intent, ours, es[0]);
      OneClash(intent, es[0]);
      ClashesCons(intent, es);
      if !stop {
        ResponseSays(m, intent, ours, es[1..], k - 1);
      }
    }
  }

  /**
   A response without a WPS element is answered with failure, and yet its last intent still makes the requester agreed.
   */
  lemma AgreedWithoutWps(n: Nego, intent: nat, ours: seq<byte>, e: P2pElement)
    requires intent < 15 && e.intent.Some? && !Refuses(e) && !DeadEnd(ours, e)
    ensures var r := RespSpec(n, intent, ours, false, [e]); r.phase == Agreed && r.result == 2
    ensures RespSpec(n, intent, ours, false, []) == n.(role := Device, phase := Failed, result := 2)
  {
    hide RoleFor, DeadEnd, Refuses, Clashes, AfterResp;
    ResponseSays(n.(phase := Failed, result := INCOMPATIBLE_PARAM), intent, ours, [e], 1);
    OneClash(intent, e);
    assert LastIntent([e]) == e.intent by { assert [e][1..] == []; }
  }
}
