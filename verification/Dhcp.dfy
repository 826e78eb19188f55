/** lib/libnet/dhcp.c in its own form: the options structure, its encoder and its decoder. */
module Dhcp {
  import opened Bytes
  import opened DhcpOptions
  import opened DhcpMessage

  /** The encoding of some of the options, behind the magic cookie. */
  function Partial(s: Settings, arch: uint16, k: nat): seq<byte>
    requires Encodable(s) && k <= 8
  {
    Magic() + Encode(Items(s, arch, k))
  }

  /** dhcp_options_t. */
  class Options {
    var flag: seq<bool>
    var requested: seq<bool>
    var serverId: uint32
    var requestedIp: uint32
    var dnsIp: uint32
    var routerIp: uint32
    var mask: uint32
    var msgType: byte
    var overload: byte
    var tftpServer: seq<byte>
    var bootfile: seq<byte>
    var clientArch: uint16

    function Contents(): Settings
      reads this
    {
      Settings(flag, requested, serverId, requestedIp, dnsIp, routerIp, mask, msgType, overload, tftpServer,
               bootfile, clientArch)
    }

    constructor ()
      ensures Contents() == Nothing()
    {
      new;
      Clear();
    }

    /** memset of the structure. */
    method Clear()
      modifies this
      ensures Contents() == Nothing()
    {
      flag, requested := seq(0x100, _ => false), seq(0x100, _ => false);
      serverId, requestedIp, dnsIp, routerIp, mask := 0, 0, 0, 0, 0;
      msgType, overload, tftpServer, bootfile, clientArch := 0, 0, [], [], 0;
      assert flag == Nothing().flag && requested == Nothing().requested;
    }

    // ----- decoding

    /** The assignment of one field. */
    method SetField(mem: seq<byte>, at: nat)
      requires Shaped(Contents()) && at + SLACK <= |mem|
      modifies this
      ensures Contents() == WithField(old(Contents()), mem, at)
    {
      hide FromBe32, FromBe16, CString, Shaped;
      match mem[at] {
        case 52 => overload := mem[at + 2];
        case 50 => requestedIp := FromBe32(mem[at + 2..at + 6]);
        case 1 => mask := FromBe32(mem[at + 2..at + 6]);
        case 6 => dnsIp := FromBe32(mem[at + 2..at + 6]);
        case 3 => routerIp := FromBe32(mem[at + 2..at + 6]);
        case 53 => msgType := mem[at + 2];
        case 54 => serverId := FromBe32(mem[at + 2..at + 6]);
        case 66 => tftpServer := CString(mem[at + 2..at + 2 + mem[at + 1] as int]);
        case 67 => bootfile := CString(mem[at + 2..at + 2 + mem[at + 1] as int]);
        case 93 => clientArch := FromBe16(mem[at + 2..at + 4]);
        case _ =>
      }
    }

    /** dhcp_decode_options. */
    method DecodeOptions(mem: seq<byte>, len: nat) returns (ok: bool)
      requires |mem| >= len + SLACK
      modifies this
      ensures ok == DhcpMessage.Decode(mem, len).Some?
      ensures ok ==> Contents() == DhcpMessage.Decode(mem, len).value
    {
      hide WithField, Nothing;
      Clear();
      if mem[..4] != Magic() {
        return false;
      }
      var at: nat := 4;
      while at < len
        invariant Shaped(Contents())
        invariant DecodeFrom(mem, len, 4, Nothing()) == DecodeFrom(mem, len, at, Contents())
        decreases len - at
      {
        var code := mem[at];
        flag := flag[code := true];
        if code == END {
          return true;
        }
        if code == PAD {
          at := at + 1;
        } else {
          if code == MSG_TYPE && !(0 < mem[at + 2] < 9) {
            return false;
          }
          SetField(mem, at);
          at := at + if code == CLIENT_ARCH then 4 else 2 + mem[at + 1] as int;
        }
      }
      ok := at == len;
    }

    // ----- encoding

    /** One option: code, length and contents. */
    static method WriteOption(field: array<byte>, at: nat, code: byte, value: seq<byte>) returns (next: nat)
      requires at + 2 + |value| <= field.Length && |value| <= 0xff
      modifies field
      ensures field[..] == Patch(old(field[..]), at, [code, |value|] + value) && next == at + 2 + |value|
    {
      ghost var before := field[..];
      field[at] := code;
      field[at + 1] := |value|;
      Store(field, at + 2, value);
      next := at + 2 + |value|;
    }

    /** The number of requested options. */
    method CountRequested() returns (sum: nat)
      requires Shaped(Contents())
      ensures sum == |RequestList(Contents())|
    {
      sum := 0;
      var i := 0;
      while i < 256
        invariant 0 <= i <= 256 && sum == |Codes(requested, i)|
      {
        sum := sum + if requested[i] then 1 else 0;
        i := i + 1;
      }
    }

    /** The codes of the requested options. */
    method WriteCodes(field: array<byte>, start: nat) returns (at: nat)
      requires Shaped(Contents()) && start + |RequestList(Contents())| <= field.Length
      modifies field
      ensures at == start + |RequestList(Contents())|
      ensures field[..] == Patch(old(field[..]), start, RequestList(Contents()))
    {
      hide Patch;
      at := start;
      ghost var before := field[..];
      var i := 0;
      PatchNothing(before, start);
      while i < 256
        invariant 0 <= i <= 256 && at == start + |Codes(requested, i)|
        invariant start + |Codes(requested, i)| <= field.Length
        invariant field[..] == Patch(before, start, Codes(requested, i))
      {
        CodesGrow(requested, i + 1, 256);
        if requested[i] {
          PatchOneMore(before, start, Codes(requested, i), i);
          field[at] := i;
          at := at + 1;
        }
        i := i + 1;
      }
    }

    /** The list of requested options. */
    method WriteRequestList(field: array<byte>, start: nat) returns (at: nat)
      requires Shaped(Contents()) && |RequestList(Contents())| <= 0xff
      requires start + 2 + |RequestList(Contents())| <= field.Length || RequestList(Contents()) == []
      modifies field
      ensures var list := RequestList(Contents());
              if list == [] then at == start && field[..] == old(field[..])
              else at == start + 2 + |list| <= field.Length
                   && field[..] == Patch(old(field[..]), start, [REQUEST_LIST, |list|] + list)
    {
      hide RequestList, Shaped, Patch;
      at := start;
      var sum := CountRequested();
      if sum != 0 {
        ghost var before := field[..];
        var head: seq<byte> := [REQUEST_LIST, sum];
        Store(field, at, head);
        at := at + 2;
        at := WriteCodes(field, at);
        PatchAppend(before, start, head, RequestList(Contents()));
      }
    }

    /** One option of the encoding, if it is sent. */
    method WriteItem(field: array<byte>, start: nat, ghost arch: uint16, ghost k: nat, ghost before: seq<byte>,
                     present: bool, code: byte, value: seq<byte>)
      returns (at: nat)
      requires Encodable(Contents()) && k < 8 && start == |Partial(Contents(), arch, k)|
      requires ItemOf(Contents(), arch, k) == Opt(code, value) && present == Sends(Contents(), code)
      requires |Partial(Contents(), arch, k + 1)| <= field.Length == |before|
      requires start <= field.Length && field[..] == Patch(before, 0, Partial(Contents(), arch, k))
      modifies field
      ensures at == |Partial(Contents(), arch, k + 1)|
      ensures field[..] == Patch(before, 0, Partial(Contents(), arch, k + 1))
    {
      hide Encode, Sends, ItemOf, Encodable;
      ghost var s := Contents();
      at := start;
      OneMoreItem(s, arch, k);
      if present {
        at := WriteOption(field, at, code, value);
        PatchAppend(before, 0, Partial(s, arch, k), EncodeItem(Opt(code, value)));
      }
    }

    /** dhcp_encode_options. For the five message types of a client the field gets the encoding; other types
        are refused. */
    method EncodeOptions(field: array<byte>, arch: uint16) returns (ok: bool)
      requires Shaped(Contents()) && field.Length >= 4
      requires Encodable(Contents()) ==> |Encoding(Contents(), arch)| <= field.Length
      requires |RequestList(Contents())| <= 0xff
      requires |tftpServer| <= 254 && 0 !in tftpServer && |bootfile| <= 254 && 0 !in bootfile
      modifies field
      ensures ok == Encodable(Contents()) && unchanged(this)
      ensures ok ==> field[..] == Patch(old(field[..]), 0, Encoding(Contents(), arch))
      ensures !ok ==> field[..] == Patch(old(field[..]), 0, Magic())
    {
      hide Encode, RequestList, Be32, Be16, Patch, Encodable, ItemOf, Sends, Partial, Encoding, Magic;
      ghost var s, before := Contents(), field[..];
      EncodableIs(s);
      Store(field, 0, Magic());
      if !(msgType == 1 || msgType == 3 || msgType == 4 || msgType == 7 || msgType == 8) {
        return false;
      }
      ItemsGrow(s, arch);
      WhatIsSent(s, arch);
      EncodingIs(s, arch);
      NoItemsYet(s, arch);
      var at := WriteItem(field, 4, arch, 0, before, true, MSG_TYPE, [msgType]);
      at := WriteItem(field, at, arch, 1, before, overload != 0, OVERLOAD, [overload]);
      at := WriteItem(field, at, arch, 2, before, flag[REQUESTED_IP], REQUESTED_IP, Be32(requestedIp));
      at := WriteItem(field, at, arch, 3, before, flag[SERVER_ID], SERVER_ID, Be32(serverId));
      ListWritten(s, arch, before);
      at := WriteRequestList(field, at);
      at := WriteItem(field, at, arch, 5, before, flag[TFTP_SERVER], TFTP_SERVER, tftpServer + [0]);
      at := WriteItem(field, at, arch, 6, before, flag[BOOTFILE], BOOTFILE, bootfile + [0]);
      at := WriteItem(field, at, arch, 7, before, flag[CLIENT_ARCH], CLIENT_ARCH, Be16(arch));
      field[at] := END;
      PatchOneMore(before, 0, Partial(s, arch, 8), END);
      ok := true;
    }
  }

  lemma PatchOneMore(m: seq<byte>, at: nat, s: seq<byte>, v: byte)
    requires at + |s| < |m|
    ensures Patch(m, at, s)[at + |s| := v] == Patch(m, at, s + [v])
  {
  }

  lemma PatchNothing(m: seq<byte>, at: nat)
    requires at <= |m|
    ensures Patch(m, at, []) == m
  {
  }

  lemma {:induction false} CodesGrow(requested: seq<bool>, i: nat, n: nat)
    requires i <= n <= |requested| == 0x100
    ensures |Codes(requested, i)| <= |Codes(requested, n)|
  {
    if i < n { CodesGrow(requested, i, n - 1); }
  }

  lemma OneMoreItem(s: Settings, arch: uint16, k: nat)
    requires Encodable(s) && k < 8
    ensures var i := ItemOf(s, arch, k);
            Partial(s, arch, k + 1) == Partial(s, arch, k) + if Sends(s, i.code) then EncodeItem(i) else []
  {
    hide Encode, EncodeItem, ItemOf, Sends, Magic;
    var i, items := ItemOf(s, arch, k), Items(s, arch, k);
    if Sends(s, i.code) {
      EncodeAppends(items, [i]);
      EncodeOne(i);
      assert Magic() + Encode(items) + EncodeItem(i) == Magic() + (Encode(items) + EncodeItem(i));
    } else {
      assert Items(s, arch, k + 1) == items + [] == items;
      assert Partial(s, arch, k) + [] == Partial(s, arch, k);
    }
  }

  lemma {:induction false} PartialGrows(s: Settings, arch: uint16, k: nat, n: nat)
    requires Encodable(s) && k <= n <= 8
    ensures |Partial(s, arch, k)| <= |Partial(s, arch, n)|
  {
    hide Partial, ItemOf;
    if k < n {
      PartialGrows(s, arch, k, n - 1);
      OneMoreItem(s, arch, n - 1);
    }
  }

  lemma EncodableIs(s: Settings)
    requires Shaped(s) && |RequestList(s)| <= 0xff
    requires |s.tftpServer| <= 254 && 0 !in s.tftpServer && |s.bootfile| <= 254 && 0 !in s.bootfile
    ensures Encodable(s) <==> s.msgType == 1 || s.msgType == 3 || s.msgType == 4 || s.msgType == 7 || s.msgType == 8
  {
    hide RequestList;
  }

  lemma EncodingIs(s: Settings, arch: uint16)
    requires Encodable(s)
    ensures Encoding(s, arch) == Partial(s, arch, 8) + [END]
  {
    hide Encodable, Encode, Items;
  }

  /** The options in the order in which the encoder sends them. */
  lemma WhatIsSent(s: Settings, arch: uint16)
    requires Encodable(s)
    ensures Shaped(s)
    ensures ItemOf(s, arch, 0) == Opt(MSG_TYPE, [s.msgType]) && Sends(s, MSG_TYPE)
    ensures ItemOf(s, arch, 1) == Opt(OVERLOAD, [s.overload]) && Sends(s, OVERLOAD) == (s.overload != 0)
    ensures ItemOf(s, arch, 2) == Opt(REQUESTED_IP, Be32(s.requestedIp))
    ensures Sends(s, REQUESTED_IP) == s.flag[REQUESTED_IP]
    ensures ItemOf(s, arch, 3) == Opt(SERVER_ID, Be32(s.serverId)) && Sends(s, SERVER_ID) == s.flag[SERVER_ID]
    ensures ItemOf(s, arch, 5) == Opt(TFTP_SERVER, s.tftpServer + [0]) && Sends(s, TFTP_SERVER) == s.flag[TFTP_SERVER]
    ensures ItemOf(s, arch, 6) == Opt(BOOTFILE, s.bootfile + [0]) && Sends(s, BOOTFILE) == s.flag[BOOTFILE]
    ensures ItemOf(s, arch, 7) == Opt(CLIENT_ARCH, Be16(arch)) && Sends(s, CLIENT_ARCH) == s.flag[CLIENT_ARCH]
  {
    hide RequestList, Be32, Be16;
  }

  lemma ItemsGrow(s: Settings, arch: uint16)
    requires Encodable(s)
    ensures forall k :: 0 <= k <= 8 ==> |Partial(s, arch, k)| < |Encoding(s, arch)|
  {
    hide Encodable, Encode, Items;
    forall k | 0 <= k <= 8 ensures |Partial(s, arch, k)| < |Encoding(s, arch)| {
      PartialGrows(s, arch, k, 8);
    }
  }

  lemma NoItemsYet(s: Settings, arch: uint16)
    requires Encodable(s)
    ensures Partial(s, arch, 0) == Magic()
  {
    hide Encodable;
    assert Magic() + [] == Magic();
  }

  lemma ListWritten(s: Settings, arch: uint16, before: seq<byte>)
    requires Encodable(s) && |Partial(s, arch, 5)| <= |before|
    ensures |Partial(s, arch, 5)| == |Partial(s, arch, 4)| + if RequestList(s) == [] then 0 else 2 + |RequestList(s)|
    ensures var list, head := RequestList(s), Partial(s, arch, 4);
            Patch(before, 0, Partial(s, arch, 5)) ==
            if list == [] then Patch(before, 0, head)
            else Patch(Patch(before, 0, head), |head|, [REQUEST_LIST, |list|] + list)
  {
    hide Encode, RequestList, Partial;
    OneMoreItem(s, arch, 4);
    if RequestList(s) != [] {
      PatchAppend(before, 0, Partial(s, arch, 4), EncodeItem(ItemOf(s, arch, 4)));
    } else {
      assert Partial(s, arch, 4) + [] == Partial(s, arch, 4);
    }
  }
}
