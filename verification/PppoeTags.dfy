/** What the bridge does to the tag list of a PPPoE discovery frame (RFC 2516, appendix A). */
module PppoeTags {
  import opened Bytes
  import opened Tlv

  const TAG_HDR_LEN := 4
  const PTT_RELAY_SID := 0x0110
  const MAGIC_CODE := 0x8186
  const MAGIC_CODE_LEN := 2
  const RTL_RELAY_TAG_LEN := 6
  /** `sizeof(tag_buf)` */
  const TAG_BUF := 40

  function EncodeTags(ts: seq<Item>): seq<byte> {
    Encode(PppoeTag, ts)
  }

  function RelayTag(data: seq<byte>): Item {
    Item(PTT_RELAY_SID, data)
  }

  /** The relay tag's data as the bridge builds it: magic, client address, and what an earlier relay had put there. */
  function RelayData(mac: Mac, d: seq<byte>): seq<byte> {
    PutBe16(MAGIC_CODE) + mac + d
  }

  function OldRelay(ts: seq<Item>): seq<byte> {
    var k := First(ts, PTT_RELAY_SID);
    if k < |ts| then ts[k].data else []
  }

  predicate Fits(d: seq<byte>) {
    |d| + TAG_HDR_LEN + MAGIC_CODE_LEN + RTL_RELAY_TAG_LEN <= TAG_BUF
  }

  /** Towards the access concentrator: our relay tag goes first, the old one is taken up into it. */
  function AddRelay(ts: seq<Item>, mac: Mac): (sent: seq<Item>)
    requires Fits(OldRelay(ts))
    ensures sent != [] && PppoeTag.Ok(sent[0])
  {
    [RelayTag(RelayData(mac, OldRelay(ts)))] + Without(ts, First(ts, PTT_RELAY_SID))
  }

  /** The tags as they are sent. */
  lemma SentTags(ts: seq<Item>, mac: Mac)
    requires Fits(OldRelay(ts))
    ensures var t, rest := RelayTag(RelayData(mac, OldRelay(ts))), Without(ts, First(ts, PTT_RELAY_SID));
            && AddRelay(ts, mac) == [t] + rest && AddRelay(ts, mac)[0] == t && AddRelay(ts, mac)[1..] == rest
            && PppoeTag.Ok(t) && |t.data| == MAGIC_CODE_LEN + RTL_RELAY_TAG_LEN + |OldRelay(ts)| <= TAG_BUF
  {
    hide First, Without, OldRelay;
  }

  /** Back towards the client: who the first relay tag names, and the tags without what the bridge had added. */
  function StripRelay(ts: seq<Item>): Option<(Mac, seq<Item>)> {
    var k := First(ts, PTT_RELAY_SID);
    if k == |ts| then None
    else
      var d := ts[k].data;
      if |d| < MAGIC_CODE_LEN + RTL_RELAY_TAG_LEN || Be16(d[0], d[1]) != MAGIC_CODE then None
      else Some((d[2..8], if |d| > 8 then ts[k := RelayTag(d[8..])] else Without(ts, k)))
  }

  /**
   The round trip of RFC 2516, appendix A: whatever the concentrator does to the other tags, a reply whose first relay
   tag is the one the bridge sent goes back to the client that asked, with the earlier relay's tag restored in its
   place, or with no relay tag there when there had been none.
   */
  lemma RelayRoundTrip(ts: seq<Item>, mac: Mac, reply: seq<Item>)
    requires Fits(OldRelay(ts))
    requires var k := First(reply, PTT_RELAY_SID); k < |reply| && reply[k] == AddRelay(ts, mac)[0]
    ensures var k := First(reply, PTT_RELAY_SID);
            StripRelay(reply) == Some((mac, if OldRelay(ts) == [] then Without(reply, k)
                                            else reply[k := RelayTag(OldRelay(ts))]))
  {
    var d := RelayData(mac, OldRelay(ts));
    assert d[2..8] == mac && d[8..] == OldRelay(ts);
  }

  /** The tag list has a first relay tag that starts with the bridge's magic code and has room for a client address. */
  predicate CarriesMagic(ts: seq<Item>) {
    var k := First(ts, PTT_RELAY_SID);
    k < |ts| && |ts[k].data| >= 8 && ts[k].data[0] == 0x81 && ts[k].data[1] == 0x86
  }

  /** Everything else is refused: no relay tag, a short one, or one of another relay. */
  lemma RefusedIff(ts: seq<Item>)
    ensures StripRelay(ts) == None <==> !CarriesMagic(ts)
  {
    hide First;
  }

  lemma RelayDataIff(data: seq<byte>, mac: Mac, d: seq<byte>)
    ensures data == RelayData(mac, d) <==>
              |data| >= 8 && Be16(data[0], data[1]) == MAGIC_CODE && data[2..8] == mac && data[8..] == d
  {
    var r := RelayData(mac, d);
    assert r[2..8] == mac && r[8..] == d && Be16(r[0], r[1]) == MAGIC_CODE;
    if |data| >= 8 && Be16(data[0], data[1]) == MAGIC_CODE && data[2..8] == mac && data[8..] == d {
      assert data == data[..2] + data[2..8] + data[8..] && r == r[..2] + r[2..8] + r[8..];
      assert data[..2] == r[..2];
    }
  }

  /**
   What is accepted is what the bridge would have sent, whatever the client and however long the rest of the tag; and
   from that it takes exactly its own part.
   */
  lemma StripsOwnPart(ts: seq<Item>, mac: Mac, us: seq<Item>)
    ensures StripRelay(ts) == Some((mac, us)) <==>
              var k := First(ts, PTT_RELAY_SID);
              && k < |ts|
              && exists d: seq<byte> :: ts[k].data == RelayData(mac, d)
                   && us == if d == [] then Without(ts, k) else ts[k := RelayTag(d)]
  {
    hide First, Without, RelayData, Be16;
    var k := First(ts, PTT_RELAY_SID);
    if k < |ts| {
      var data := ts[k].data;
      if StripRelay(ts) == Some((mac, us)) {
        RelayDataIff(data, mac, data[8..]);
      }
      forall d: seq<byte> | data == RelayData(mac, d)
        ensures StripRelay(ts) == Some((mac, if d == [] then Without(ts, k) else ts[k := RelayTag(d)]))
      {
        RelayDataIff(data, mac, d);
      }
    }
  }

  /** An earlier relay's data is taken up as long as it has at most 28 bytes. */
  lemma FitsIff(ts: seq<Item>)
    ensures var k := First(ts, PTT_RELAY_SID); Fits(OldRelay(ts)) <==> k == |ts| || |ts[k].data| <= 28
  {
    hide First;
  }

  lemma FrontTag(t: Item, rest: seq<Item>, u: Item)
    ensures Without([t] + rest, 0) == rest && ([t] + rest)[0 := u] == [u] + rest
  {
  }

  /** An unchanged echo comes back as the tags that were sent, the relay tag moved to the front. */
  lemma EchoRoundTrip(ts: seq<Item>, mac: Mac)
    requires Fits(OldRelay(ts))
    ensures var k := First(ts, PTT_RELAY_SID);
            var rest := Without(ts, k);
            StripRelay(AddRelay(ts, mac)) == Some((mac, if OldRelay(ts) == [] then rest else [ts[k]] + rest))
  {
    var sent, before := AddRelay(ts, mac), RelayTag(OldRelay(ts));
    var rest := Without(ts, First(ts, PTT_RELAY_SID));
    assert First(sent, PTT_RELAY_SID) == 0 && sent == [sent[0]] + rest;
    RelayRoundTrip(ts, mac, sent);
    FrontTag(sent[0], rest, before);
  }

  lemma TagsWithout(ts: seq<Item>, k: nat)
    requires k < |ts|
    ensures var b, o, n := EncodeTags(ts), Offset(PppoeTag, ts, k), TAG_HDR_LEN + |ts[k].data|;
            o + n <= |b| && EncodeTags(Without(ts, k)) == b[..o] + b[o + n..]
  {
    hide Encode, Offset, Without;
    EncodeWithout(PppoeTag, ts, k);
  }

  lemma TagBytes(t: Item)
    requires PppoeTag.Ok(t)
    ensures EncodeItem(PppoeTag, t) == PutBe16(t.kind) + PutBe16(|t.data|) + t.data
  {
    hide PutBe16;
    assert t.kind % 0x1_0000 == t.kind && |t.data| % 0x1_0000 == |t.data|;
  }

  lemma Associate(p: seq<byte>, kind: seq<byte>, len: seq<byte>, d: seq<byte>, s: seq<byte>)
    ensures p + ((kind + len) + d) + s == (p + kind + len) + (d + s)
  {
  }

  lemma PatchLength(p: seq<byte>, kind: seq<byte>, len: seq<byte>, len': seq<byte>, rest: seq<byte>)
    requires |kind| == |len| == |len'| == 2
    ensures Patch((p + kind + len) + rest, |p| + 2, len') == (p + kind) + len' + rest
  {
    var s := (p + kind + len) + rest;
    assert s[..|p| + 2] == p + kind;
    assert s[|p| + 4..] == rest;
  }

  lemma ShorterBytes(p: seq<byte>, t: Item, n: nat, s: seq<byte>)
    requires n <= |t.data| && PppoeTag.Ok(t)
    ensures var b, u := p + EncodeItem(PppoeTag, t) + s, Item(t.kind, t.data[n..]);
            p + EncodeItem(PppoeTag, u) + s ==
            Patch(b[..|p| + TAG_HDR_LEN] + b[|p| + TAG_HDR_LEN + n..], |p| + 2, PutBe16(|u.data|))
  {
    hide PutBe16, Patch, EncodeItem;
    TagBytes(t);
    TagBytes(Item(t.kind, t.data[n..]));
    var kind, len, len' := PutBe16(t.kind), PutBe16(|t.data|), PutBe16(|t.data| - n);
    var b, head, rest := p + EncodeItem(PppoeTag, t) + s, p + kind + len, t.data[n..] + s;
    assert b == head + (t.data + s) by { Associate(p, kind, len, t.data, s); }
    DropConcat(head, t.data + s, n);
    assert (t.data + s)[n..] == rest;
    PatchLength(p, kind, len, len', rest);
    Associate(p, kind, len', t.data[n..], s);
  }

  /** Taking the first `n` data bytes of tag k out of the encoded list, and correcting its length. */
  lemma EncodeShorter(ts: seq<Item>, k: nat, n: nat)
    requires k < |ts| && n <= |ts[k].data| && PppoeTag.Ok(ts[k])
    ensures var b, o, t := EncodeTags(ts), Offset(PppoeTag, ts, k), Item(ts[k].kind, ts[k].data[n..]);
            && o + TAG_HDR_LEN + |ts[k].data| <= |b|
            && EncodeTags(ts[k := t]) ==
               Patch(b[..o + TAG_HDR_LEN] + b[o + TAG_HDR_LEN + n..], o + 2, PutBe16(|t.data|))
  {
    hide Encode, EncodeItem, Patch, PutBe16;
    EncodeAt(PppoeTag, ts, k);
    EncodeReplace(PppoeTag, ts, k, Item(ts[k].kind, ts[k].data[n..]));
    ShorterBytes(Encode(PppoeTag, ts[..k]), ts[k], n, Encode(PppoeTag, ts[k + 1..]));
  }
}
