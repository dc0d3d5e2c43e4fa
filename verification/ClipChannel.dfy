/** Clipboard messages over the shared connection: whatever the schedule of the sending goroutines, the
    receiver's reassembly sees whole messages and delivers them in lock order (client.go with
    clipboard_linux.go). */
module ClipChannel {
  import opened Bytes
  import opened PackageTypes
  import opened Packets
  import opened Connection
  import opened Senders
  import opened ClipWire

  /** What one hold of the send lock carries. */
  datatype Item = TextItem(src: uint32, text: string) | ImageItem(src: uint32, data: seq<byte>) | OtherItem(p: Packet)

  function ItemPackets(c: Codec, it: Item): seq<Packet> {
    match it
    case TextItem(src, text) => Chunked(TextData(c, text), CLIPBOARD_TEXT, src)
    case ImageItem(src, data) => Chunked(data, CLIPBOARD_IMAGE, src)
    case OtherItem(p) => [EraseId(p)]
  }

  /** Texts and images are sent inline up to 1 MB; anything else is not a clipboard transfer packet. */
  predicate Allowed(c: Codec, it: Item) {
    match it
    case TextItem(_, text) => |TextData(c, text)| <= MAX_INLINE
    case ImageItem(_, data) => |data| <= MAX_INLINE
    case OtherItem(p) => !IsTransfer(p.kind)
  }

  function ItemDeliveries(c: Codec, it: Item): seq<Delivery> {
    match it
    case TextItem(_, text) => Arrives(c, text)
    case ImageItem(_, data) => Delivered(c, Padded(data), true)
    case OtherItem(_) => []
  }

  function AllDeliveries(c: Codec, items: seq<Item>): seq<Delivery> {
    if items == [] then [] else AllDeliveries(c, items[..|items| - 1]) + ItemDeliveries(c, items[|items| - 1])
  }

  ghost predicate IsMessage(c: Codec, ps: seq<Packet>) {
    exists it: Item :: !it.OtherItem? && Allowed(c, it) && ps == ItemPackets(c, it)
  }

  /** The goroutines call SendPackets only for clipboard messages, and SendPacket for everything else. */
  ghost predicate ActionAllowed(c: Codec, a: Action) {
    match a
    case SendOne(_, p) => !IsTransfer(p.kind)
    case SendMany(_, ps) => IsMessage(c, ps)
    case Step(_) => true
  }

  ghost predicate PendingOk(c: Codec, pc: Pc) {
    match pc
    case AcquireBatch(ps) => IsMessage(c, ps)
    case AcquireLone(p) => !IsTransfer(p.kind)
    case Load(t) => t.Lone? ==> !IsTransfer(t.p.kind)
    case Store(t) => t.Lone? ==> !IsTransfer(t.p.kind)
    case Add(t) => t.Lone? ==> !IsTransfer(t.p.kind)
    case _ => true
  }

  predicate Matches(c: Codec, history: seq<seq<Packet>>, items: seq<Item>) {
    && |items| == |history|
    && forall i :: 0 <= i < |items| ==> Allowed(c, items[i]) && history[i] == ItemPackets(c, items[i])
  }

  lemma {:induction false} DataPacketsErased(data: seq<byte>, kind: byte, src: uint32)
    requires |data| % CLIP_DATA_SIZE == 0
    ensures EraseIds(DataPackets(data, kind, src)) == DataPackets(data, kind, src)
    decreases |data|
  {
    if data != [] {
      DataPacketsErased(data[CLIP_DATA_SIZE..], kind, src);
    }
  }

  lemma ItemErased(c: Codec, it: Item)
    ensures EraseIds(ItemPackets(c, it)) == ItemPackets(c, it)
  {
    hide TextData, DataPackets, Padded;
    match it
    case TextItem(src, text) => DataPacketsErased(Padded(TextData(c, text)), CLIPBOARD_TEXT, src);
    case ImageItem(src, data) => DataPacketsErased(Padded(data), CLIPBOARD_IMAGE, src);
    case OtherItem(p) =>
  }

  lemma ItemsStep(cfg: Config, c: Codec, s: State, a: Action, items: seq<Item>) returns (items': seq<Item>)
    requires Enabled(s, a) && ActionAllowed(c, a) && Matches(c, s.history, items)
    requires forall t :: 0 <= t < |s.pcs| ==> PendingOk(c, s.pcs[t])
    ensures Matches(c, Next(cfg, s, a).history, items')
    ensures forall t :: 0 <= t < |s.pcs| ==> PendingOk(c, Next(cfg, s, a).pcs[t])
  {
    hide WireBytes, Stream.Encrypt, EraseIds, ItemPackets, Allowed, IsTransfer;
    items' := items;
    if a.Step? {
      var pc := s.pcs[a.tid];
      if pc.AcquireBatch? {
        var it: Item :| !it.OtherItem? && Allowed(c, it) && pc.ps == ItemPackets(c, it);
        ItemErased(c, it);
        items' := items + [it];
      } else if pc.AcquireLone? {
        OtherAllowed(c, pc.numbered);
        items' := items + [OtherItem(pc.numbered)];
      }
    }
  }

  lemma OtherAllowed(c: Codec, p: Packet)
    requires !IsTransfer(p.kind)
    ensures Allowed(c, OtherItem(p)) && ItemPackets(c, OtherItem(p)) == [EraseId(p)]
  {
  }

  lemma {:induction false} ItemsAlways(cfg: Config, c: Codec, s: State, acts: seq<Action>, items: seq<Item>)
    returns (items': seq<Item>)
    requires Exec(cfg, s, acts).Some? && Matches(c, s.history, items)
    requires forall i :: 0 <= i < |acts| ==> ActionAllowed(c, acts[i])
    requires forall t :: 0 <= t < |s.pcs| ==> PendingOk(c, s.pcs[t])
    ensures Matches(c, Exec(cfg, s, acts).value.history, items')
    decreases |acts|
  {
    items' := items;
    if acts != [] {
      items' := ItemsStep(cfg, c, s, acts[0], items);
      var u := Next(cfg, s, acts[0]);
      assert |u.pcs| == |s.pcs| by { hide WireBytes, Stream.Encrypt; }
      hide Next, Matches, PendingOk, ActionAllowed;
      items' := ItemsAlways(cfg, c, u, acts[1..], items');
    }
  }

  // ---- The receiver ------------------------------------------------------------

  /** The reassembly does not look at packet IDs. */
  lemma {:induction false} FeedErased(c: Codec, s: Assembly, ps: seq<Packet>)
    ensures Feed(c, s, Canonicals(ps)) == Feed(c, s, Canonicals(EraseIds(ps)))
    decreases |ps|
  {
    if ps != [] {
      var a, b := Canonicals(ps), Canonicals(EraseIds(ps));
      assert a[1..] == Canonicals(ps[1..]);
      assert b[1..] == Canonicals(EraseIds(ps[1..]));
      HandleErased(c, s, ps[0]);
      hide Canonical, Handle;
      FeedErased(c, Handle(c, s, a[0]).0, ps[1..]);
    }
  }

  lemma HandleErased(c: Codec, s: Assembly, p: Packet)
    ensures Handle(c, s, Canonical(p)) == Handle(c, s, Canonical(EraseId(p)))
  {
    assert ClipArea(p) == ClipArea(EraseId(p));
    hide Delivered;
  }

  /** One hold of the lock takes the reassembly from idle to idle and delivers its own message only. */
  lemma FeedItem(c: Codec, s: Assembly, it: Item)
    requires c.Lawful() && AtRest(s) && Allowed(c, it)
    ensures AtRest(Feed(c, s, Canonicals(ItemPackets(c, it))).0)
    ensures Feed(c, s, Canonicals(ItemPackets(c, it))).1 == ItemDeliveries(c, it)
  {
    hide Padded, Delivered, TextData, Chunked, Arrives;
    match it
    case TextItem(src, text) =>
      MessageDelivered(c, s, TextData(c, text), CLIPBOARD_TEXT, src);
      TextMessage(c, text);
    case ImageItem(src, data) =>
      MessageDelivered(c, s, data, CLIPBOARD_IMAGE, src);
    case OtherItem(p) =>
      FeedOther(c, s, p);
  }

  lemma FeedOther(c: Codec, s: Assembly, p: Packet)
    requires !IsTransfer(p.kind)
    ensures Feed(c, s, Canonicals([EraseId(p)])) == (s, [])
  {
    var q := Canonical(EraseId(p));
    assert Canonicals([EraseId(p)]) == [q];
    FeedOne(c, s, q);
  }

  lemma {:induction false} FeedHistory(c: Codec, s: Assembly, history: seq<seq<Packet>>, items: seq<Item>)
    requires c.Lawful() && AtRest(s) && Matches(c, history, items)
    ensures AtRest(Feed(c, s, Canonicals(Concat(history))).0)
    ensures Feed(c, s, Canonicals(Concat(history))).1 == AllDeliveries(c, items)
    decreases |items|
  {
    if items == [] {
      assert Canonicals(Concat(history)) == [];
    } else {
      var n := |items| - 1;
      var before, last := history[..n], history[n];
      assert last == ItemPackets(c, items[n]) && Allowed(c, items[n]);
      assert Matches(c, before, items[..n]);
      hide Feed, Canonicals, Concat, ItemPackets, Allowed, ItemDeliveries, Matches, AtRest;
      ConcatLast(history);
      CanonicalsConcat(Concat(before), last);
      var a, b := Canonicals(Concat(before)), Canonicals(last);
      FeedHistory(c, s, before, items[..n]);
      FeedConcat(c, s, a, b);
      FeedItem(c, Feed(c, s, a).0, items[n]);
    }
  }

  lemma CanonicalsConcat(a: seq<Packet>, b: seq<Packet>)
    ensures Canonicals(a + b) == Canonicals(a) + Canonicals(b)
  {
    hide Canonical;
  }

  function PacketsOf(rs: seq<Received>): (ps: seq<Packet>)
    ensures |ps| == |rs| && forall i :: 0 <= i < |rs| ==> ps[i] == rs[i].packet
  {
    seq(|rs|, i requires 0 <= i < |rs| => rs[i].packet)
  }

  lemma FeedPrefix(c: Codec, s: Assembly, a: seq<Packet>, b: seq<Packet>)
    requires a <= b
    ensures Feed(c, s, Canonicals(a)).1 <= Feed(c, s, Canonicals(b)).1
  {
    var rest := b[|a|..];
    assert b == a + rest;
    CanonicalsConcat(a, rest);
    FeedConcat(c, s, Canonicals(a), Canonicals(rest));
  }

  /** For every schedule of any number of goroutines sending texts, images and other packets, and at every
      moment: decrypting, unframing and reassembling the bytes on the wire delivers the messages of the lock
      holders, in lock order, as far as they are complete; when the lock is free it has delivered exactly all
      of them and the reassembly is idle. */
  lemma MessagesArriveInLockOrder(cfg: Config, c: Codec, acts: seq<Action>) returns (items: seq<Item>)
    requires cfg.cipher.Lawful() && c.Lawful() && Exec(cfg, Init(cfg), acts).Some?
    requires forall i :: 0 <= i < |acts| ==> ActionAllowed(c, acts[i])
    ensures var s := Exec(cfg, Init(cfg), acts).value;
            var r := RecvMany(cfg.cipher, cfg.magic, Stream.Reader(cfg.iv, s.cipherText), |s.log|);
            && Matches(c, s.history, items) && r.Ok?
            && var (t, deliveries) := Feed(c, IDLE, PacketsOf(r.value.0));
               && deliveries <= AllDeliveries(c, items)
               && (s.lock.None? ==> AtRest(t) && deliveries == AllDeliveries(c, items))
               && (s.lock.Some? ==> items != [] && AllDeliveries(c, items[..|items| - 1]) <= deliveries)
  {
    items := ItemsAlways(cfg, c, Init(cfg), acts, []);
    hide Exec, Init, ActionAllowed, RecvMany, EraseIds, Matches, Concat, Feed, AtRest;
    WholeBatchesOnTheWire(cfg, acts);
    var s := Exec(cfg, Init(cfg), acts).value;
    var r := RecvMany(cfg.cipher, cfg.magic, Stream.Reader(cfg.iv, s.cipherText), |s.log|);
    assert PacketsOf(r.value.0) == Canonicals(s.log);
    FeedErased(c, IDLE, s.log);
    FeedCut(c, EraseIds(s.log), s.history, items);
  }

  /** Packets that stop somewhere in the last batch deliver the messages before it, and at most its own. */
  lemma FeedCut(c: Codec, ps: seq<Packet>, history: seq<seq<Packet>>, items: seq<Item>)
    requires c.Lawful() && Matches(c, history, items) && ps <= Concat(history)
    ensures Feed(c, IDLE, Canonicals(ps)).1 <= AllDeliveries(c, items)
    ensures ps == Concat(history) ==>
              AtRest(Feed(c, IDLE, Canonicals(ps)).0) && Feed(c, IDLE, Canonicals(ps)).1 == AllDeliveries(c, items)
    ensures history != [] && Concat(history[..|history| - 1]) <= ps ==>
              items != [] && AllDeliveries(c, items[..|items| - 1]) <= Feed(c, IDLE, Canonicals(ps)).1
  {
    hide ItemPackets, Allowed, Concat, Feed, Canonicals, AllDeliveries;
    FeedHistory(c, IDLE, history, items);
    FeedPrefix(c, IDLE, ps, Concat(history));
    if history != [] && Concat(history[..|history| - 1]) <= ps {
      var n := |items| - 1;
      FeedHistory(c, IDLE, history[..n], items[..n]);
      FeedPrefix(c, IDLE, Concat(history[..n]), ps);
    }
  }
}
