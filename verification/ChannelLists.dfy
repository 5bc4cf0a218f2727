/** Channel lists of P2P group-owner negotiation: reading the peer's and intersecting it with our own. */
module ChannelLists {
  import opened Bytes
  import opened Tlv

  /**
   The channels of a list attribute. Behind a country string of three bytes, each entry is a class byte, a length byte
   and that many channels, which on the wire is the layout of information elements.
   */
  function Channels(entries: seq<Item>): seq<byte> {
    if entries == [] then [] else Channels(entries[..|entries| - 1]) + entries[|entries| - 1].data
  }

  ghost predicate IsChannelList(content: seq<byte>, entries: seq<Item>) {
    && 3 <= |content| < 256
    && content[3..] == Encode(InfoElement, entries)
    && AllOk(InfoElement, entries)
  }

  lemma ChannelsNext(entries: seq<Item>, k: nat)
    requires k < |entries|
    ensures Channels(entries[..k + 1]) == Channels(entries[..k]) + entries[k].data
  {
    assert entries[..k + 1][..k] == entries[..k];
  }

  lemma {:induction false} ChannelsGrow(entries: seq<Item>, k: nat)
    requires k <= |entries|
    ensures |Channels(entries[..k])| <= |Channels(entries)|
    decreases |entries| - k
  {
    if k == |entries| {
      assert entries[..k] == entries;
    } else {
      ChannelsNext(entries, k);
      ChannelsGrow(entries, k + 1);
    }
  }

  /** The channels of a list are those of its entries, one behind the other. */
  lemma {:induction false} ChannelsOneByOne(es: seq<Item>, fs: seq<Item>, e: Item)
    ensures Channels(es + fs) == Channels(es) + Channels(fs)
    ensures Channels([e]) == e.data
    decreases |fs|
  {
    assert [e][..0] == [];
    if fs == [] {
      assert es + fs == es;
    } else {
      var last := |fs| - 1;
      assert (es + fs)[..|es + fs| - 1] == es + fs[..last];
      ChannelsOneByOne(es, fs[..last], e);
    }
  }

  lemma NoChannels(entries: seq<Item>)
    ensures Channels(entries[..0]) == []
  {
  }

  lemma {:induction false} ChannelsShorter(entries: seq<Item>, k: nat)
    requires k <= |entries|
    ensures |Channels(entries[..k])| <= |Encode(InfoElement, entries[..k])|
  {
    hide Encode, EncodeItem;
    if k == 0 {
      NoChannels(entries);
    } else {
      ChannelsShorter(entries, k - 1);
      ChannelsNext(entries, k - 1);
      assert entries[..k] == entries[..k - 1] + [entries[k - 1]];
      EncodeSplit(InfoElement, entries[..k - 1], [entries[k - 1]]);
      EncodeCons(InfoElement, entries[k - 1], []);
      EncodeNone(InfoElement);
      assert [entries[k - 1]] == [entries[k - 1]] + [];
    }
  }

  /** There are no more channels than bytes. */
  lemma ChannelsFit(content: seq<byte>, entries: seq<Item>)
    requires IsChannelList(content, entries)
    ensures |Channels(entries)| <= |content|
  {
    hide Encode, Channels;
    ChannelsShorter(entries, |entries|);
    assert entries[..|entries|] == entries;
  }

  /** Where entry k is in the attribute. */
  lemma EntryAt(content: seq<byte>, entries: seq<Item>, k: nat)
    requires IsChannelList(content, entries) && k < |entries|
    ensures var o := 3 + Offset(InfoElement, entries, k);
            && o + 2 + |entries[k].data| <= |content| && content[o + 1] == |entries[k].data|
            && content[o + 2..o + 2 + |entries[k].data|] == entries[k].data
            && 3 + Offset(InfoElement, entries, k + 1) == o + 2 + |entries[k].data|
  {
    hide Encode, Offset;
    ItemAt(InfoElement, entries, k);
    var b, o, n := content[3..], Offset(InfoElement, entries, k), |entries[k].data|;
    assert b[o + 1] == content[3 + o + 1];
    SliceOfDrop(content, 3, o + 2, o + 2 + n);
  }

  lemma EndAt(content: seq<byte>, entries: seq<Item>, k: nat)
    requires IsChannelList(content, entries) && k <= |entries|
    ensures 3 + Offset(InfoElement, entries, k) == |content| <==> k == |entries|
    ensures k == 0 ==> Offset(InfoElement, entries, k) == 0
  {
    hide Encode, Offset;
    OffsetEnd(InfoElement, entries);
    OffsetZero(InfoElement, entries);
    if k < |entries| {
      ItemAt(InfoElement, entries, k);
    }
  }

  lemma LongEnough(content: seq<byte>, entries: seq<Item>)
    requires IsChannelList(content, entries)
    ensures |content| >= 3
  {
  }

  /** The inner loop: the channels of one entry go behind the first `j`. */
  method CopyChannels(content: seq<byte>, at: nat, n: nat, peerChList: array<byte>, j: nat)
    requires at + n <= |content| && j + n <= peerChList.Length
    modifies peerChList
    ensures peerChList[..j + n] == old(peerChList[..j]) + content[at..at + n]
  {
    ghost var before := peerChList[..j];
    var i := 0;
    while i < n
      invariant 0 <= i <= n
      invariant peerChList[..j + i] == before + content[at..at + i]
    {
      peerChList[j + i] := content[at + i];
      i := i + 1;
    }
  }

  /** `rtw_p2p_get_peer_ch_list`: the channels of all the entries, one behind the other, whatever their classes. */
  method GetPeerChList(content: seq<byte>, ghost entries: seq<Item>, peerChList: array<byte>) returns (chNo: nat)
    requires IsChannelList(content, entries) && |Channels(entries)| <= peerChList.Length
    modifies peerChList
    ensures chNo == |Channels(entries)| && peerChList[..chNo] == Channels(entries)
  {
    hide Encode, Offset, Channels, IsChannelList;
    assert 3 <= |content| by { LongEnough(content, entries); }
    var at, chCnt, j := 3, |content| - 3, 0;
    ghost var k := 0;
    chNo := 0;
    assert Channels(entries[..0]) == [] by { NoChannels(entries); }
    EndAt(content, entries, 0);
    while chCnt > 0
      invariant 0 <= k <= |entries| && at == 3 + Offset(InfoElement, entries, k) && chCnt == |content| - at >= 0
      invariant j == chNo == |Channels(entries[..k])| <= peerChList.Length
      invariant peerChList[..j] == Channels(entries[..k])
      decreases |entries| - k
    {
      EndAt(content, entries, k);
      EntryAt(content, entries, k);
      ChannelsNext(entries, k);
      ChannelsGrow(entries, k + 1);
      at := at + 1;
      chCnt := chCnt - 1;
      var n: nat := content[at];
      CopyChannels(content, at + 1, n, peerChList, j);
      j := j + n;
      at := at + n + 1;
      chCnt := chCnt - (n + 1);
      chNo := chNo + n;
      k := k + 1;
    }
    EndAt(content, entries, k);
    assert k == |entries|;
    assert entries[..k] == entries;
  }

  // ----- intersecting with the local channel set

  function Seek(ours: seq<byte>, from: nat, ch: byte): (j: nat)
    requires from <= |ours|
    ensures from <= j <= |ours| && (j < |ours| ==> ours[j] == ch) && (forall k :: from <= k < j ==> ours[k] != ch)
    decreases |ours| - from
  {
    if from == |ours| || ours[from] == ch then from else Seek(ours, from + 1, ch)
  }

  /** What the scan finds when it resumes, for each channel of the peer, where it last found one. */
  function Resumed(peer: seq<byte>, ours: seq<byte>, from: nat): seq<byte>
    requires from <= |ours|
  {
    if peer == [] then []
    else
      var j := Seek(ours, from, peer[0]);
      if j < |ours| then [peer[0]] + Resumed(peer[1..], ours, j) else Resumed(peer[1..], ours, from)
  }

  /** The peer's channels that we have too: in the peer's order, and as often as the peer has them. */
  function Common(peer: seq<byte>, ours: seq<byte>): seq<byte> {
    if peer == [] then [] else (if peer[0] in ours then [peer[0]] else []) + Common(peer[1..], ours)
  }

  ghost predicate Ascending(s: seq<byte>) {
    forall j, k :: 0 <= j < k < |s| ==> s[j] <= s[k]
  }

  ghost predicate StrictlyAscending(s: seq<byte>) {
    forall j, k :: 0 <= j < k < |s| ==> s[j] < s[k]
  }

  /** One sequence comes from the other by leaving elements out. */
  predicate Subsequence(s: seq<byte>, t: seq<byte>) {
    s == [] || (t != [] && if s[0] == t[0] then Subsequence(s[1..], t[1..]) else Subsequence(s, t[1..]))
  }

  lemma {:induction false} SubsequenceTail(s: seq<byte>, t: seq<byte>)
    requires Subsequence(s, t) && s != []
    ensures Subsequence(s[1..], t)
    decreases |t|, 0
  {
    if s[0] == t[0] {
      SubsequenceWeaken(s[1..], t[1..], t[0]);
    } else {
      SubsequenceTail(s, t[1..]);
      SubsequenceWeaken(s[1..], t[1..], t[0]);
    }
    assert t == [t[0]] + t[1..];
  }

  lemma {:induction false} SubsequenceWeaken(s: seq<byte>, t: seq<byte>, x: byte)
    requires Subsequence(s, t)
    ensures Subsequence(s, [x] + t)
    decreases |t|, 1
  {
    assert ([x] + t)[1..] == t;
    if s != [] && s[0] == x {
      SubsequenceTail(s, t);
    }
  }

  /** For any lists at all: what is found is part of the peer's list, in its order, and all of it is in our set. */
  lemma {:induction false} ResumedIsPartOfBoth(peer: seq<byte>, ours: seq<byte>, from: nat)
    requires from <= |ours|
    ensures Subsequence(Resumed(peer, ours, from), peer)
    ensures forall c <- Resumed(peer, ours, from) :: c in ours && c in peer
    ensures |Resumed(peer, ours, from)| <= |Common(peer, ours)|
  {
    if peer != [] {
      var j := Seek(ours, from, peer[0]);
      if j < |ours| {
        ResumedIsPartOfBoth(peer[1..], ours, j);
        var rest := Resumed(peer[1..], ours, j);
        assert ([peer[0]] + rest)[1..] == rest;
      } else {
        ResumedIsPartOfBoth(peer[1..], ours, from);
        SubsequenceWeaken(Resumed(peer[1..], ours, from), peer[1..], peer[0]);
        assert peer == [peer[0]] + peer[1..];
      }
    }
  }

  lemma {:induction false} CommonIsCommon(peer: seq<byte>, ours: seq<byte>)
    ensures forall c :: c in Common(peer, ours) <==> c in peer && c in ours
  {
    if peer != [] {
      CommonIsCommon(peer[1..], ours);
    }
  }

  lemma CommonNext(peer: seq<byte>, ours: seq<byte>)
    requires peer != []
    ensures Common(peer, ours) ==
            if peer[0] in ours then [peer[0]] + Common(peer[1..], ours) else Common(peer[1..], ours)
  {
  }

  lemma AscendingCons(p: byte, d: seq<byte>)
    ensures Ascending([p] + d) <==> Ascending(d) && (d != [] ==> p <= d[0])
  {
    var c := [p] + d;
    assert c[1..] == d;
    if Ascending(c) {
      forall j, k | 0 <= j < k < |d| ensures d[j] <= d[k] { assert c[j + 1] <= c[k + 1]; }
      if d != [] { assert c[0] <= c[1]; }
    }
  }

  lemma ResumedNext(peer: seq<byte>, ours: seq<byte>, i: nat, from: nat)
    requires i < |peer| && from <= |ours|
    ensures Resumed(peer[i..], ours, from) ==
            var j := Seek(ours, from, peer[i]);
            if j < |ours| then [peer[i]] + Resumed(peer[i + 1..], ours, j) else Resumed(peer[i + 1..], ours, from)
  {
    assert peer[i..][1..] == peer[i + 1..];
  }

  /**
   With our channels in ascending order, resuming finds all the common channels exactly when the peer lists those in
   ascending order (what it lists besides does not matter). From a later start, it must not have passed the first.
   */
  lemma {:induction false} ResumedFindsAllIff(peer: seq<byte>, ours: seq<byte>, from: nat)
    requires StrictlyAscending(ours) && from <= |ours| && (from < |ours| || ours == [])
    ensures var c := Common(peer, ours);
            Resumed(peer, ours, from) == c <==> Ascending(c) && (c != [] ==> from < |ours| && ours[from] <= c[0])
  {
    if peer != [] {
      hide Ascending, Resumed, Common;
      var p, rest := peer[0], peer[1..];
      var j, d := Seek(ours, from, p), Common(rest, ours);
      CommonNext(peer, ours);
      ResumedNext(peer, ours, 0, from);
      assert peer[0..] == peer;
      if p !in ours {
        ResumedFindsAllIff(rest, ours, from);
      } else {
        var k :| 0 <= k < |ours| && ours[k] == p;
        if k >= from {
          assert j == k;
          ResumedFindsAllIff(rest, ours, k);
          AscendingCons(p, d);
          assert ([p] + d)[1..] == d && ([p] + Resumed(rest, ours, k))[1..] == Resumed(rest, ours, k);
        } else {
          assert j == |ours|;
          ResumedIsPartOfBoth(rest, ours, from);
        }
      }
    }
  }

  lemma {:induction false} CommonAscends(peer: seq<byte>, ours: seq<byte>)
    requires Ascending(peer)
    ensures Ascending(Common(peer, ours))
  {
    if peer != [] {
      var d := Common(peer[1..], ours);
      CommonAscends(peer[1..], ours);
      AscendingCons(peer[0], d);
      CommonIsCommon(peer[1..], ours);
      if d != [] { assert d[0] in peer[1..]; }
      assert Common(peer, ours) == if peer[0] in ours then [peer[0]] + d else d;
    }
  }

  /** So when both lists ascend, the fast scan is the plain intersection. */
  lemma ResumedIsIntersection(peer: seq<byte>, ours: seq<byte>)
    requires Ascending(peer) && StrictlyAscending(ours)
    ensures Resumed(peer, ours, 0) == Common(peer, ours)
  {
    CommonAscends(peer, ours);
    CommonIsCommon(peer, ours);
    var c := Common(peer, ours);
    if c != [] { assert c[0] in ours; }
    ResumedFindsAllIff(peer, ours, 0);
  }

  /** A peer that lists channel 6 before channel 1 loses channel 1. */
  lemma ResumedMissesOne()
    ensures Resumed([6, 1], [1, 6], 0) == [6] && Common([6, 1], [1, 6]) == [6, 1]
  {
    assert Seek([1, 6], 0, 6) == 1;
    assert Seek([1, 6], 1, 1) == 2;
    assert [6, 1][1..] == [1] && [1][1..] == [];
  }

  lemma SeekIs(ours: seq<byte>, from: nat, ch: byte, j: nat)
    requires from <= j <= |ours| && (j < |ours| ==> ours[j] == ch) && (forall k :: from <= k < j ==> ours[k] != ch)
    ensures Seek(ours, from, ch) == j
  {
  }

  lemma Snoc(s: seq<byte>, x: byte, t: seq<byte>)
    ensures s + ([x] + t) == s + [x] + t
  {
  }

  lemma ResumedNone(peer: seq<byte>, ours: seq<byte>, from: nat)
    requires peer == [] && from <= |ours|
    ensures Resumed(peer, ours, from) == []
  {
  }

  /** The inner loop of `rtw_p2p_ch_inclusion`, which goes on from where the last channel was found. */
  method FindChannel(ours: seq<byte>, from: nat, ch: byte) returns (j: nat)
    requires from <= |ours|
    ensures j == Seek(ours, from, ch)
  {
    hide Seek;
    j := from;
    while j < |ours| && ch != ours[j]
      invariant from <= j <= |ours|
      invariant forall k :: from <= k < j ==> ours[k] != ch
    {
      j := j + 1;
    }
    SeekIs(ours, from, ch, j);
  }

  method PutChannel(list: array<byte>, n: nat, ch: byte)
    requires n < list.Length
    modifies list
    ensures list[..n + 1] == old(list[..n]) + [ch]
  {
    list[n] := ch;
  }

  /** `rtw_p2p_ch_inclusion` */
  method ChInclusion(ours: seq<byte>, peer: array<byte>, peerNum: nat, inclusioned: array<byte>) returns (chNo: nat)
    requires peerNum <= peer.Length && peerNum <= inclusioned.Length && peer != inclusioned
    modifies inclusioned
    ensures chNo == |Resumed(peer[..peerNum], ours, 0)| <= peerNum
    ensures inclusioned[..chNo] == Resumed(peer[..peerNum], ours, 0)
  {
    hide Resumed, Seek;
    ghost var ps, found: seq<byte> := peer[..peerNum], [];
    var temp: nat := 0;
    chNo := 0;
    assert ps[0..] == ps;
    var i := 0;
    while i < peerNum
      invariant 0 <= i <= peerNum && temp <= |ours| && chNo <= i
      invariant inclusioned[..chNo] == found
      invariant found + Resumed(ps[i..], ours, temp) == Resumed(ps, ours, 0)
    {
      assert peer[i] == ps[i];
      ResumedNext(ps, ours, i, temp);
      var j := FindChannel(ours, temp, peer[i]);
      if j < |ours| {
        Snoc(found, ps[i], Resumed(ps[i + 1..], ours, j));
        PutChannel(inclusioned, chNo, peer[i]);
        chNo := chNo + 1;
        found := found + [ps[i]];
        temp := j;
      }
      i := i + 1;
    }
    ResumedNone(ps[i..], ours, temp);
    assert found + [] == found;
  }

  /** `rtw_p2p_is_channel_list_ok` */
  method IsChannelListOk(desired: byte, list: array<byte>, n: nat) returns (found: bool)
    requires n <= list.Length
    ensures found == (desired in list[..n])
  {
    var i := 0;
    while i < n
      invariant 0 <= i <= n
      invariant desired !in list[..i]
    {
      if list[i] == desired {
        assert list[..n][i] == desired;
        return true;
      }
      i := i + 1;
    }
    return false;
  }
}
