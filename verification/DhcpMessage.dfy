/** Encoding and decoding of DHCP options (lib/libnet/dhcp.c; RFC 2132). */
module DhcpMessage {
  import opened Bytes
  import opened DhcpOptions

  const MASK: byte := 1
  const ROUTER: byte := 3
  const DNS: byte := 6
  const REQUESTED_IP: byte := 50
  const OVERLOAD: byte := 52
  const MSG_TYPE: byte := 53
  const SERVER_ID: byte := 54
  const REQUEST_LIST: byte := 55
  const TFTP_SERVER: byte := 66
  const BOOTFILE: byte := 67
  const CLIENT_ARCH: byte := 93

  function Magic(): (s: seq<byte>)
    ensures |s| == 4
  {
    [0x63, 0x82, 0x53, 0x63]
  }

  /** dhcp_options_t; the two strings without their terminators. */
  datatype Settings = Settings(flag: seq<bool>, requested: seq<bool>,
                               serverId: uint32, requestedIp: uint32, dnsIp: uint32, routerIp: uint32, mask: uint32,
                               msgType: byte, overload: byte, tftpServer: seq<byte>, bootfile: seq<byte>,
                               clientArch: uint16)

  predicate Shaped(s: Settings) { |s.flag| == 0x100 && |s.requested| == 0x100 }

  function Nothing(): (s: Settings)
    ensures Shaped(s)
  {
    Settings(seq(0x100, _ => false), seq(0x100, _ => false), 0, 0, 0, 0, 0, 0, 0, [], [], 0)
  }

  /** The C string in a buffer. */
  function CString(s: seq<byte>): (t: seq<byte>)
    ensures |t| <= |s|
  {
    if s == [] || s[0] == 0 then [] else [s[0]] + CString(s[1..])
  }

  lemma {:induction false} CStringOf(s: seq<byte>)
    requires 0 !in s
    ensures CString(s + [0]) == s
  {
    if s == [] {
      assert (s + [0])[0] == 0;
    } else {
      assert (s + [0])[1..] == s[1..] + [0] && (s + [0])[0] == s[0];
      CStringOf(s[1..]);
    }
  }

  // ----- decoding

  function WithFlag(s: Settings, code: byte): (r: Settings)
    requires Shaped(s)
    ensures Shaped(r)
  {
    s.(flag := s.flag[code := true])
  }

  /** The field that the option at `at` sets; the code reads the bytes it expects whatever the length byte
      says. */
  function WithField(s: Settings, mem: seq<byte>, at: nat): (r: Settings)
    requires Shaped(s) && at + SLACK <= |mem|
    ensures Shaped(r)
  {
    var code, n, word := mem[at], mem[at + 1] as int, FromBe32(mem[at + 2..at + 6]);
    if code == OVERLOAD then s.(overload := mem[at + 2])
    else if code == REQUESTED_IP then s.(requestedIp := word)
    else if code == MASK then s.(mask := word)
    else if code == DNS then s.(dnsIp := word)
    else if code == ROUTER then s.(routerIp := word)
    else if code == MSG_TYPE then s.(msgType := mem[at + 2])
    else if code == SERVER_ID then s.(serverId := word)
    else if code == TFTP_SERVER then s.(tftpServer := CString(mem[at + 2..at + 2 + n]))
    else if code == BOOTFILE then s.(bootfile := CString(mem[at + 2..at + 2 + n]))
    else if code == CLIENT_ARCH then s.(clientArch := FromBe16(mem[at + 2..at + 4]))
    else s
  }

  /** dhcp_decode_options from `at` on; None for its error return. */
  function DecodeFrom(mem: seq<byte>, len: nat, at: nat, s: Settings): Option<Settings>
    requires |mem| >= len + SLACK && Shaped(s)
    decreases len - at
  {
    if at >= len then if at == len then Some(s) else None
    else
      var s1 := WithFlag(s, mem[at]);
      if mem[at] == END then Some(s1)
      else if mem[at] == PAD then DecodeFrom(mem, len, at + 1, s1)
      else if mem[at] == MSG_TYPE && !(0 < mem[at + 2] < 9) then None
      else
        var size := if mem[at] == CLIENT_ARCH then 4 else 2 + mem[at + 1] as int;
        DecodeFrom(mem, len, at + size, WithField(s1, mem, at))
  }

  function Decode(mem: seq<byte>, len: nat): Option<Settings>
    requires |mem| >= len + SLACK
  {
    if mem[..4] != Magic() then None else DecodeFrom(mem, len, 4, Nothing())
  }

  // ----- decoding in terms of items

  /** An option has the contents its code calls for. */
  predicate Sane(i: Item) {
    i.Opt? ==>
      && (i.code == REQUESTED_IP || i.code == MASK || i.code == DNS || i.code == ROUTER || i.code == SERVER_ID
          ==> |i.value| >= 4)
      && (i.code == OVERLOAD || i.code == MSG_TYPE ==> |i.value| >= 1)
      && (i.code == CLIENT_ARCH ==> |i.value| == 2)
  }

  predicate AllSane(items: seq<Item>) { forall i :: 0 <= i < |items| ==> Sane(items[i]) }

  /** What one option means. */
  function Receive(s: Settings, i: Item): (r: Option<Settings>)
    requires Shaped(s) && Sane(i)
    ensures r.Some? ==> Shaped(r.value)
  {
    match i
    case Pad => Some(WithFlag(s, PAD))
    case Opt(code, v) =>
      var s1 := WithFlag(s, code);
      if code == OVERLOAD then Some(s1.(overload := v[0]))
      else if code == REQUESTED_IP then Some(s1.(requestedIp := FromBe32(v[..4])))
      else if code == MASK then Some(s1.(mask := FromBe32(v[..4])))
      else if code == DNS then Some(s1.(dnsIp := FromBe32(v[..4])))
      else if code == ROUTER then Some(s1.(routerIp := FromBe32(v[..4])))
      else if code == MSG_TYPE then if 0 < v[0] < 9 then Some(s1.(msgType := v[0])) else None
      else if code == SERVER_ID then Some(s1.(serverId := FromBe32(v[..4])))
      else if code == TFTP_SERVER then Some(s1.(tftpServer := CString(v)))
      else if code == BOOTFILE then Some(s1.(bootfile := CString(v)))
      else if code == CLIENT_ARCH then Some(s1.(clientArch := FromBe16(v)))
      else Some(s1)
  }

  /** What a list of options means. */
  function ReceiveAll(s: Settings, items: seq<Item>): (r: Option<Settings>)
    requires Shaped(s) && AllSane(items)
    ensures r.Some? ==> Shaped(r.value)
    decreases |items|
  {
    if items == [] then Some(s)
    else
      match Receive(s, items[0])
      case None => None
      case Some(s1) => ReceiveAll(s1, items[1..])
  }

  /** The option the decoder reads at `at`: as long as its length byte says, but option 93 always has two
      bytes. */
  function ReadAt(mem: seq<byte>, at: nat): (i: Item)
    requires at + SLACK <= |mem| && mem[at] != END
    ensures Proper(i) && (Is(i, CLIENT_ARCH) ==> |i.value| == 2)
  {
    if mem[at] == CLIENT_ARCH then Opt(CLIENT_ARCH, mem[at + 2..at + 4]) else ItemAt(mem, at)
  }

  /** The options the decoder reads, and where it stops. */
  function ReadFrom(mem: seq<byte>, len: nat, at: nat): (w: Walk)
    requires |mem| >= len + SLACK
    ensures AllProper(w.items)
    ensures forall i :: 0 <= i < |w.items| && Is(w.items[i], CLIENT_ARCH) ==> |w.items[i].value| == 2
    decreases len - at
  {
    if at >= len || mem[at] == END then Walk([], at)
    else
      var item := ReadAt(mem, at);
      var w := ReadFrom(mem, len, at + |EncodeItem(item)|);
      Walk([item] + w.items, w.stop)
  }

  lemma ReadStops(mem: seq<byte>, len: nat, at: nat)
    requires |mem| >= len + SLACK && (at >= len || mem[at] == END)
    ensures ReadFrom(mem, len, at) == Walk([], at)
  {
  }

  lemma ReadStep(mem: seq<byte>, len: nat, at: nat)
    requires |mem| >= len + SLACK && at < len && mem[at] != END
    ensures var w, w1 := ReadFrom(mem, len, at), ReadFrom(mem, len, at + |EncodeItem(ReadAt(mem, at))|);
            w.items == [ReadAt(mem, at)] + w1.items && w.items[0] == ReadAt(mem, at) && w.items[1..] == w1.items
            && w.stop == w1.stop
  {
    hide ReadAt, EncodeItem;
  }

  /** If the length byte of option 93 is right, the decoder reads the items of the list. */
  lemma {:induction false} ReadsTheItems(mem: seq<byte>, len: nat, at: nat)
    requires |mem| >= len + SLACK && AllSane(WalkFrom(mem, len, at).items)
    ensures ReadFrom(mem, len, at) == WalkFrom(mem, len, at)
    decreases len - at
  {
    hide EncodeItem, WalkFrom, ReadFrom;
    if at >= len || mem[at] == END {
      WalkStops(mem, len, at);
      ReadStops(mem, len, at);
    } else {
      WalkStep(mem, len, at);
      ReadStep(mem, len, at);
      assert Sane(WalkFrom(mem, len, at).items[0]);
      assert ReadAt(mem, at) == ItemAt(mem, at);
      ReadsTheItems(mem, len, at + |EncodeItem(ItemAt(mem, at))|);
    }
  }

  /** One turn of the decoder, in terms of the option it reads. */
  lemma DecodesItem(mem: seq<byte>, len: nat, at: nat, s: Settings)
    requires |mem| >= len + SLACK && Shaped(s) && at < len && mem[at] != END && Sane(ReadAt(mem, at))
    ensures DecodeFrom(mem, len, at, s) ==
            match Receive(s, ReadAt(mem, at))
            case None => None
            case Some(s1) => DecodeFrom(mem, len, at + |EncodeItem(ReadAt(mem, at))|, s1)
  {
    hide WithFlag, CString, FromBe32, FromBe16;
    var i := ReadAt(mem, at);
    if mem[at] != PAD && mem[at] != CLIENT_ARCH {
      var v := mem[at + 2..at + 2 + mem[at + 1] as int];
      assert i == Opt(mem[at], v);
      if |v| >= 4 { assert mem[at + 2..at + 6] == v[..4]; }
      if |v| >= 1 { assert mem[at + 2] == v[0]; }
    }
  }

  lemma DecodeStops(mem: seq<byte>, len: nat, at: nat, s: Settings)
    requires |mem| >= len + SLACK && Shaped(s) && (at >= len || mem[at] == END)
    ensures DecodeFrom(mem, len, at, s) ==
            if at < len then Some(WithFlag(s, END)) else if at == len then Some(s) else None
  {
  }

  /** What comes of a walk that the options were received from: an end marker sets its flag and is not
      needed, a cut-off option is an error. */
  function Outcome(r: Option<Settings>, len: nat, stop: nat): Option<Settings>
    requires r.Some? ==> Shaped(r.value)
  {
    if r.None? || stop > len then None else if stop < len then Some(WithFlag(r.value, END)) else r
  }

  /** The decoder computes the meaning of the options it reads. */
  lemma {:induction false} DecodesItems(mem: seq<byte>, len: nat, at: nat, s: Settings)
    requires |mem| >= len + SLACK && Shaped(s) && at <= len + SLACK
    requires AllSane(ReadFrom(mem, len, at).items)
    ensures var w := ReadFrom(mem, len, at);
            DecodeFrom(mem, len, at, s) == Outcome(ReceiveAll(s, w.items), len, w.stop)
    decreases len - at
  {
    hide WithFlag, WithField, Receive, Sane, ReadAt, EncodeItem, ReadFrom, DecodeFrom;
    if at >= len || mem[at] == END {
      ReadStops(mem, len, at);
      DecodeStops(mem, len, at, s);
    } else {
      var i := ReadAt(mem, at);
      ReadStep(mem, len, at);
      assert Sane(ReadFrom(mem, len, at).items[0]);
      DecodesItem(mem, len, at, s);
      if Receive(s, i).Some? {
        DecodesItems(mem, len, at + |EncodeItem(i)|, Receive(s, i).value);
      }
    }
  }

  /** A list that fills the field exactly decodes without an end marker. */
  lemma DecodesWithoutEnd(mem: seq<byte>, len: nat, items: seq<Item>)
    requires |mem| >= len + SLACK && AllProper(items) && AllSane(items)
    requires len == 4 + |Encode(items)| && mem[..len] == Magic() + Encode(items)
    ensures Decode(mem, len) == ReceiveAll(Nothing(), items)
  {
    hide Encode, DecodeFrom, ReceiveAll, Nothing, WalkFrom, ReadFrom;
    assert mem[..4] == mem[..len][..4] && mem[4..len] == mem[..len][4..];
    WalkUndoesEncode(mem, len, 4, items);
    ReadsTheItems(mem, len, 4);
    DecodesItems(mem, len, 4, Nothing());
  }

  // ----- encoding

  /** The codes below `n` of the requested options. */
  function Codes(requested: seq<bool>, n: nat): (s: seq<byte>)
    requires n <= |requested| == 0x100
    ensures |s| <= n
  {
    if n == 0 then [] else Codes(requested, n - 1) + if requested[n - 1] then [n - 1] else []
  }

  function RequestList(s: Settings): seq<byte>
    requires Shaped(s)
  {
    Codes(s.requested, |s.requested|)
  }

  lemma {:induction false} CodesAre(requested: seq<bool>, n: nat)
    requires n <= |requested| == 0x100
    ensures forall c: byte :: c in Codes(requested, n) <==> c < n && requested[c]
    ensures forall i, j :: 0 <= i < j < |Codes(requested, n)| ==> Codes(requested, n)[i] < Codes(requested, n)[j]
  {
    if n > 0 {
      CodesAre(requested, n - 1);
      var before := Codes(requested, n - 1);
      assert forall i :: 0 <= i < |before| ==> before[i] in before;
    }
  }

  /** The request list holds exactly the codes of the requested options, in ascending order. */
  lemma RequestListIs(s: Settings)
    requires Shaped(s)
    ensures forall c: byte :: c in RequestList(s) <==> s.requested[c]
    ensures forall i, j :: 0 <= i < j < |RequestList(s)| ==> RequestList(s)[i] < RequestList(s)[j]
  {
    CodesAre(s.requested, 0x100);
  }

  predicate Encodable(s: Settings) {
    && Shaped(s) && s.msgType in {1, 3, 4, 7, 8} && |RequestList(s)| <= 0xff
    && |s.tftpServer| <= 254 && 0 !in s.tftpServer && |s.bootfile| <= 254 && 0 !in s.bootfile
  }

  /** The order in which the options are sent; 8 for those that never are. */
  function Position(code: int): nat {
    if code == MSG_TYPE then 0
    else if code == OVERLOAD then 1
    else if code == REQUESTED_IP then 2
    else if code == SERVER_ID then 3
    else if code == REQUEST_LIST then 4
    else if code == TFTP_SERVER then 5
    else if code == BOOTFILE then 6
    else if code == CLIENT_ARCH then 7
    else 8
  }

  predicate Sends(s: Settings, code: int)
    requires Shaped(s) && 0 <= code < 0x100
  {
    if code == MSG_TYPE then true
    else if code == OVERLOAD then s.overload != 0
    else if code == REQUEST_LIST then RequestList(s) != []
    else Position(code) < 8 && s.flag[code]
  }

  /** The `k`-th option that may be sent. `arch` is the compiled-in architecture. */
  function ItemOf(s: Settings, arch: uint16, k: nat): (i: Item)
    requires Encodable(s) && k < 8
    ensures Proper(i) && Sane(i) && i.Opt? && Position(i.code) == k
  {
    match k
    case 0 => Opt(MSG_TYPE, [s.msgType])
    case 1 => Opt(OVERLOAD, [s.overload])
    case 2 => Opt(REQUESTED_IP, Be32(s.requestedIp))
    case 3 => Opt(SERVER_ID, Be32(s.serverId))
    case 4 => Opt(REQUEST_LIST, RequestList(s))
    case 5 => Opt(TFTP_SERVER, s.tftpServer + [0])
    case 6 => Opt(BOOTFILE, s.bootfile + [0])
    case 7 => Opt(CLIENT_ARCH, Be16(arch))
  }

  /** The options that are sent, up to the `k`-th. */
  function Items(s: Settings, arch: uint16, k: nat): (items: seq<Item>)
    requires Encodable(s) && k <= 8
    ensures AllProper(items) && AllSane(items)
  {
    if k == 0 then []
    else
      var i := ItemOf(s, arch, k - 1);
      Items(s, arch, k - 1) + if Sends(s, i.code) then [i] else []
  }

  function Encoding(s: Settings, arch: uint16): seq<byte>
    requires Encodable(s)
  {
    Magic() + Encode(Items(s, arch, 8)) + [END]
  }

  lemma ItemsStep(s: Settings, arch: uint16, k: nat)
    requires Encodable(s) && k < 8
    ensures Encode(Items(s, arch, k + 1)) ==
            Encode(Items(s, arch, k)) + if Sends(s, ItemOf(s, arch, k).code) then EncodeItem(ItemOf(s, arch, k)) else []
  {
    hide Encode, EncodeItem, Sends, ItemOf;
    var i, before := ItemOf(s, arch, k), Items(s, arch, k);
    if Sends(s, i.code) {
      EncodeAppends(before, [i]);
      EncodeOne(i);
    } else {
      assert before + [] == before;
    }
  }

  /** The options on the wire in the terms of RFC 2132: code, length and contents, in the order they are sent. */
  function OnTheWire(s: Settings, arch: uint16, k: nat): seq<byte>
    requires Encodable(s) && k < 8
  {
    match k
    case 0 => [53, 1, s.msgType]
    case 1 => if s.overload != 0 then [52, 1, s.overload] else []
    case 2 => if s.flag[50] then [50, 4] + Be32(s.requestedIp) else []
    case 3 => if s.flag[54] then [54, 4] + Be32(s.serverId) else []
    case 4 => if RequestList(s) != [] then [55, |RequestList(s)|] + RequestList(s) else []
    case 5 => if s.flag[66] then [66, |s.tftpServer| + 1] + s.tftpServer + [0] else []
    case 6 => if s.flag[67] then [67, |s.bootfile| + 1] + s.bootfile + [0] else []
    case 7 => if s.flag[93] then [93, 2, arch / 0x100, arch % 0x100] else []
  }

  lemma StepOnTheWire(s: Settings, arch: uint16, k: nat)
    requires Encodable(s) && k < 8
    ensures Encode(Items(s, arch, k + 1)) == Encode(Items(s, arch, k)) + OnTheWire(s, arch, k)
  {
    hide Encode, RequestList, Be32, Items;
    ItemsStep(s, arch, k);
  }

  /** The message is the magic cookie, these options and the end marker. */
  lemma MessageIs(s: Settings, arch: uint16)
    requires Encodable(s)
    ensures Encoding(s, arch) ==
            [99, 130, 83, 99]
            + OnTheWire(s, arch, 0) + OnTheWire(s, arch, 1) + OnTheWire(s, arch, 2) + OnTheWire(s, arch, 3)
            + OnTheWire(s, arch, 4) + OnTheWire(s, arch, 5) + OnTheWire(s, arch, 6) + OnTheWire(s, arch, 7)
            + [255]
  {
    hide Encode, Items, OnTheWire;
    NoItems(s, arch);
    StepOnTheWire(s, arch, 0);
    StepOnTheWire(s, arch, 1);
    StepOnTheWire(s, arch, 2);
    StepOnTheWire(s, arch, 3);
    StepOnTheWire(s, arch, 4);
    StepOnTheWire(s, arch, 5);
    StepOnTheWire(s, arch, 6);
    StepOnTheWire(s, arch, 7);
    Nested(Magic(), OnTheWire(s, arch, 0), OnTheWire(s, arch, 1), OnTheWire(s, arch, 2), OnTheWire(s, arch, 3),
           OnTheWire(s, arch, 4), OnTheWire(s, arch, 5), OnTheWire(s, arch, 6), OnTheWire(s, arch, 7));
  }

  lemma Nested(m: seq<byte>, a: seq<byte>, b: seq<byte>, c: seq<byte>, d: seq<byte>, e: seq<byte>, f: seq<byte>,
               g: seq<byte>, h: seq<byte>)
    ensures m + ([] + a + b + c + d + e + f + g + h) == m + a + b + c + d + e + f + g + h
  {
    assert m + ([] + a + b + c + d) == m + a + b + c + d;
    assert m + ([] + a + b + c + d + e + f + g + h) == m + ([] + a + b + c + d) + (e + f + g + h);
    assert m + a + b + c + d + (e + f + g + h) == m + a + b + c + d + e + f + g + h;
  }

  lemma NoItems(s: Settings, arch: uint16)
    requires Encodable(s)
    ensures Encode(Items(s, arch, 0)) == []
  {
  }

  // ----- the round trip

  /** What the receiver of the first `k` options of an encoding of `s` gets: the fields that were sent, and
      flags for what was sent. */
  function Sent(s: Settings, arch: uint16, k: nat): (r: Settings)
    requires Encodable(s)
    ensures Shaped(r)
  {
    Settings(
      seq<bool>(0x100, c requires 0 <= c < 0x100 => Position(c) < k && Position(c) < 8 && Sends(s, c)),
      Nothing().requested,
      if k > 3 && s.flag[SERVER_ID] then s.serverId else 0,
      if k > 2 && s.flag[REQUESTED_IP] then s.requestedIp else 0,
      0, 0, 0,
      if k > 0 then s.msgType else 0,
      if k > 1 then s.overload else 0,
      if k > 5 && s.flag[TFTP_SERVER] then s.tftpServer else [],
      if k > 6 && s.flag[BOOTFILE] then s.bootfile else [],
      if k > 7 && s.flag[CLIENT_ARCH] then arch else 0)
  }

  /** Receiving one more option. */
  lemma ReceivesOne(s: Settings, arch: uint16, k: nat)
    requires Encodable(s) && k < 8
    ensures var i := ItemOf(s, arch, k);
            if Sends(s, i.code) then Receive(Sent(s, arch, k), i) == Some(Sent(s, arch, k + 1))
            else Sent(s, arch, k + 1) == Sent(s, arch, k)
  {
    hide Be32, FromBe32, Be16, FromBe16, CString, RequestList, Nothing;
    CStringOf(s.tftpServer);
    CStringOf(s.bootfile);
    assert Be32(s.requestedIp)[..4] == Be32(s.requestedIp) && Be32(s.serverId)[..4] == Be32(s.serverId);
    var i, t, t1 := ItemOf(s, arch, k), Sent(s, arch, k), Sent(s, arch, k + 1);
    if Sends(s, i.code) {
      assert t1.flag == t.flag[i.code := true];
    } else {
      assert t1.flag == t.flag;
    }
  }

  lemma {:induction false} ReceiveAppended(s: Settings, items: seq<Item>, i: Item)
    requires Shaped(s) && AllSane(items) && Sane(i)
    ensures AllSane(items + [i])
    ensures ReceiveAll(s, items + [i]) ==
            match ReceiveAll(s, items)
            case None => None
            case Some(s1) => Receive(s1, i)
    decreases |items|
  {
    hide Receive, Sane;
    var all := items + [i];
    if items == [] {
      assert all[0] == i && all[1..] == [];
    } else if Receive(s, items[0]).Some? {
      assert all[0] == items[0] && all[1..] == items[1..] + [i];
      ReceiveAppended(Receive(s, items[0]).value, items[1..], i);
    }
  }

  lemma {:induction false} ReceivesItems(s: Settings, arch: uint16, k: nat)
    requires Encodable(s) && k <= 8
    ensures ReceiveAll(Nothing(), Items(s, arch, k)) == Some(Sent(s, arch, k))
  {
    hide Receive, Sane, Sent, Nothing, Sends, Encodable, ItemOf;
    if k == 0 {
      NothingSent(s, arch);
    } else {
      ReceivesItems(s, arch, k - 1);
      ReceivesOne(s, arch, k - 1);
      ReceiveAppended(Nothing(), Items(s, arch, k - 1), ItemOf(s, arch, k - 1));
      assert Items(s, arch, k - 1) + [] == Items(s, arch, k - 1);
    }
  }

  lemma NothingSent(s: Settings, arch: uint16)
    requires Encodable(s)
    ensures Sent(s, arch, 0) == Nothing()
  {
    hide Sends;
  }

  /** Decoding undoes encoding: message type, overload, addresses, strings and architecture come back. */
  lemma DecodeUndoesEncode(s: Settings, arch: uint16, mem: seq<byte>)
    requires Encodable(s) && |mem| >= |Encoding(s, arch)| + SLACK
    requires mem[..|Encoding(s, arch)|] == Encoding(s, arch)
    ensures Decode(mem, |Encoding(s, arch)|) == Some(WithFlag(Sent(s, arch, 8), END))
  {
    hide Encode, DecodeFrom, ReceiveAll, Nothing, Items, Sent, Magic, WithFlag, Encodable, WalkFrom, ReadFrom;
    var items, len := Items(s, arch, 8), |Encoding(s, arch)|;
    var w := mem[..len];
    assert mem[..4] == w[..4] == Magic();
    assert mem[4..4 + |Encode(items)|] == w[4..4 + |Encode(items)|] == Encode(items);
    assert mem[4 + |Encode(items)|] == w[4 + |Encode(items)|] == END;
    WalkUndoesEncode(mem, len, 4, items);
    ReadsTheItems(mem, len, 4);
    DecodesItems(mem, len, 4, Nothing());
    ReceivesItems(s, arch, 8);
  }
}
