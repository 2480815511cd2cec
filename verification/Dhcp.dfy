/** The DHCP option walk of network.c (option format: sections 2, 3.1 and 3.2 of RFC 2132). */
module Dhcp {
  import opened Words

  const PAD: Byte := 0
  const SUBNET_MASK: Byte := 1
  const ROUTER: Byte := 3
  const MESSAGE_TYPE: Byte := 53
  const SERVER_ID: Byte := 54
  const END: Byte := 255
  const OFFER: Byte := 2

  /** The globals the walk sets. */
  datatype Lease = Lease(acquired: bool, netmask: Uint32, gateway: Uint32, server: Uint32)

  datatype DhcpOption = Pad | Opt(code: Byte, value: seq<Byte>)

  /** An option that can be encoded. */
  ghost predicate Encodable(o: DhcpOption) {
    o.Opt? ==> o.code != PAD && o.code != END && |o.value| < 0x100
  }

  /** parse_ipv4_address: the value of the first four bytes, most significant byte first. */
  function Address(value: seq<Byte>): (n: Uint32)
    requires |value| >= 4
    ensures n == Be(value[..4])
  {
    BeOfFour(value[..4]);
    var a: int, b: int, c: int, d: int := value[0], value[1], value[2], value[3];
    0x100_0000 * a + 0x1_0000 * b + 0x100 * c + d
  }

  /** The switch over one option. */
  function Apply(s: Lease, o: DhcpOption): Lease {
    if o.Pad? then s
    else if o.code == MESSAGE_TYPE then if |o.value| >= 1 && o.value[0] == OFFER then s.(acquired := true) else s
    else if o.code == SUBNET_MASK then if |o.value| == 4 then s.(netmask := Address(o.value)) else s
    else if o.code == ROUTER then if |o.value| >= 4 then s.(gateway := Address(o.value)) else s
    else if o.code == SERVER_ID then if |o.value| == 4 then s.(server := Address(o.value)) else s
    else s
  }

  ghost function ApplyAll(s: Lease, opts: seq<DhcpOption>): Lease
    decreases |opts|
  {
    if opts == [] then s else ApplyAll(Apply(s, opts[0]), opts[1..])
  }

  // ---------------------------------------------------------------- encoding and decoding

  function Encode(o: DhcpOption): seq<Byte>
    requires Encodable(o)
  {
    if o.Pad? then [PAD] else [o.code, |o.value|] + o.value
  }

  ghost function EncodeAll(opts: seq<DhcpOption>): seq<Byte>
    requires forall i :: 0 <= i < |opts| ==> Encodable(opts[i])
    decreases |opts|
  {
    if opts == [] then [] else Encode(opts[0]) + EncodeAll(opts[1..])
  }

  /** What a stream holds from offset i on: options up to an end marker, a truncated option or the
      last byte. */
  ghost function Decode(s: seq<Byte>, i: nat): seq<DhcpOption>
    decreases |s| - i
  {
    if i + 2 > |s| || s[i] == END then []
    else if s[i] == PAD then [Pad] + Decode(s, i + 1)
    else
      var n: int := s[i + 1];
      if i + 2 + n > |s| then [] else [Opt(s[i], s[i + 2..i + 2 + n])] + Decode(s, i + 2 + n)
  }

  /** Decoding inverts encoding, whatever follows the end marker. */
  lemma {:induction false} DecodeEncoded(before: seq<Byte>, opts: seq<DhcpOption>, after: seq<Byte>)
    requires forall i :: 0 <= i < |opts| ==> Encodable(opts[i])
    ensures Decode(before + EncodeAll(opts) + ([END] + after), |before|) == opts
    decreases |opts|
  {
    var tail := [END] + after;
    if opts == [] {
      assert before + EncodeAll(opts) == before;
      DecodeEnd(before, after);
    } else {
      var o, rest := opts[0], opts[1..];
      var s := before + EncodeAll(opts) + tail;
      assert EncodeAll(opts) == Encode(o) + EncodeAll(rest);
      DecodeFirst(before, o, EncodeAll(rest), tail);
      DecodeEncoded(before + Encode(o), rest, after);
      assert Decode(s, |before + Encode(o)|) == rest;
      assert opts == [o] + rest;
    }
  }

  /** The walk over any encoded list of options and an end marker folds the options in order. */
  lemma EncodedEffect(s: Lease, opts: seq<DhcpOption>, after: seq<Byte>)
    requires forall i :: 0 <= i < |opts| ==> Encodable(opts[i])
    ensures ApplyAll(s, Decode(EncodeAll(opts) + ([END] + after), 0)) == ApplyAll(s, opts)
  {
    assert [] + EncodeAll(opts) == EncodeAll(opts);
    DecodeEncoded([], opts, after);
  }

  lemma DecodeEnd(before: seq<Byte>, after: seq<Byte>)
    ensures Decode(before + ([END] + after), |before|) == []
  {
    assert (before + ([END] + after))[|before|] == END;
  }

  lemma DecodeFirst(before: seq<Byte>, o: DhcpOption, rest: seq<Byte>, tail: seq<Byte>)
    requires Encodable(o) && tail != []
    ensures var s := before + (Encode(o) + rest) + tail;
            s == (before + Encode(o)) + rest + tail && Decode(s, |before|) == [o] + Decode(s, |before + Encode(o)|)
  {
    Regroup(before, Encode(o), rest, tail);
    DecodeOne(before + (Encode(o) + rest) + tail, |before|, o);
  }

  lemma Regroup(a: seq<Byte>, b: seq<Byte>, c: seq<Byte>, d: seq<Byte>)
    ensures a + (b + c) + d == (a + b) + c + d
    ensures (a + (b + c) + d)[|a|..|a| + |b|] == b
  {
  }

  lemma DecodeOne(s: seq<Byte>, i: nat, o: DhcpOption)
    requires Encodable(o) && i + |Encode(o)| < |s| && s[i..i + |Encode(o)|] == Encode(o)
    ensures Decode(s, i) == [o] + Decode(s, i + |Encode(o)|)
  {
    var e := Encode(o);
    assert s[i] == s[i..i + |e|][0] == e[0];
    if o.Opt? {
      assert s[i + 1] == s[i..i + |e|][1] == e[1];
      assert s[i + 2..i + |e|] == s[i..i + |e|][2..] == o.value;
    }
  }

  // ---------------------------------------------------------------- which write wins

  datatype Field = Netmask | Gateway | Server

  function Get(s: Lease, f: Field): Uint32 {
    match f case Netmask => s.netmask case Gateway => s.gateway case Server => s.server
  }

  /** The option sets the field. */
  predicate Sets(o: DhcpOption, f: Field) {
    o.Opt? && match f
              case Netmask => o.code == SUBNET_MASK && |o.value| == 4
              case Gateway => o.code == ROUTER && |o.value| >= 4
              case Server => o.code == SERVER_ID && |o.value| == 4
  }

  predicate IsOffer(o: DhcpOption) {
    o.Opt? && o.code == MESSAGE_TYPE && |o.value| >= 1 && o.value[0] == OFFER
  }

  lemma {:induction false} UnsetKeeps(s: Lease, opts: seq<DhcpOption>, f: Field)
    requires forall i :: 0 <= i < |opts| ==> !Sets(opts[i], f)
    ensures Get(ApplyAll(s, opts), f) == Get(s, f)
    decreases |opts|
  {
    if opts == [] {
    } else {
      assert !Sets(opts[0], f);
      UnsetKeeps(Apply(s, opts[0]), opts[1..], f);
    }
  }

  /** The last option that sets a field decides its value. */
  lemma {:induction false} LastWriteWins(s: Lease, opts: seq<DhcpOption>, f: Field, i: nat)
    requires i < |opts| && Sets(opts[i], f) && forall j :: i < j < |opts| ==> !Sets(opts[j], f)
    ensures Get(ApplyAll(s, opts), f) == Address(opts[i].value)
    decreases |opts|
  {
    if i > 0 {
      LastWriteWins(Apply(s, opts[0]), opts[1..], f, i - 1);
    } else {
      UnsetKeeps(Apply(s, opts[0]), opts[1..], f);
    }
  }

  /** The lease counts as acquired exactly when it did before or an offer is among the options. */
  lemma {:induction false} AcquiredByOffer(s: Lease, opts: seq<DhcpOption>)
    ensures ApplyAll(s, opts).acquired <==> s.acquired || exists i :: 0 <= i < |opts| && IsOffer(opts[i])
    decreases |opts|
  {
    if opts == [] {
    } else {
      var rest := opts[1..];
      AcquiredByOffer(Apply(s, opts[0]), rest);
      assert Apply(s, opts[0]).acquired <==> s.acquired || IsOffer(opts[0]);
      if i :| 0 <= i < |rest| && IsOffer(rest[i]) {
        assert IsOffer(opts[i + 1]);
      }
      if i :| 0 <= i < |opts| && IsOffer(opts[i]) && i > 0 {
        assert IsOffer(rest[i - 1]);
      }
    }
  }

  // ---------------------------------------------------------------- the values, in numbers

  /** An option with this code and four bytes of value, or for a list of addresses at least four. */
  ghost predicate Valid(o: DhcpOption, code: Byte, list: bool) {
    o.Opt? && o.code == code && (|o.value| == 4 || (list && |o.value| >= 4))
  }

  lemma {:induction false} ApplyAllAppend(s: Lease, a: seq<DhcpOption>, b: seq<DhcpOption>)
    ensures ApplyAll(s, a + b) == ApplyAll(ApplyAll(s, a), b)
    decreases |a|
  {
    if a == [] {
      assert a + b == b;
    } else {
      assert (a + b)[1..] == a[1..] + b;
      ApplyAllAppend(Apply(s, a[0]), a[1..], b);
    }
  }

  /** Option 1 sets the subnet mask, option 3 the router (its first address) and option 54 the server
      identifier (sections 3.3, 3.5 and 9.7 of RFC 2132), unless a later valid one follows. */
  lemma AddressOptions(s: Lease, before: seq<DhcpOption>, n: Uint32, more: seq<Byte>, after: seq<DhcpOption>)
    ensures (forall i :: 0 <= i < |after| ==> !Valid(after[i], 1, false)) ==>
              ApplyAll(s, before + ([Opt(1, Be32(n))] + after)).netmask == n
    ensures (forall i :: 0 <= i < |after| ==> !Valid(after[i], 3, true)) ==>
              ApplyAll(s, before + ([Opt(3, Be32(n) + more)] + after)).gateway == n
    ensures (forall i :: 0 <= i < |after| ==> !Valid(after[i], 54, false)) ==>
              ApplyAll(s, before + ([Opt(54, Be32(n))] + after)).server == n
  {
    BeOfBe32(n);
    assert (Be32(n) + more)[..4] == Be32(n) && Be32(n)[..4] == Be32(n);
    LastSets(s, before, Opt(1, Be32(n)), after, Netmask);
    LastSets(s, before, Opt(3, Be32(n) + more), after, Gateway);
    LastSets(s, before, Opt(54, Be32(n)), after, Server);
  }

  lemma LastSets(s: Lease, before: seq<DhcpOption>, o: DhcpOption, after: seq<DhcpOption>, f: Field)
    requires Sets(o, f)
    ensures (forall i :: 0 <= i < |after| ==> !Sets(after[i], f)) ==>
              Get(ApplyAll(s, before + ([o] + after)), f) == Address(o.value)
  {
    if forall i :: 0 <= i < |after| ==> !Sets(after[i], f) {
      ApplyAllAppend(s, before, [o] + after);
      var rest := [o] + after;
      assert rest[0] == o && forall j :: 0 < j < |rest| ==> rest[j] == after[j - 1];
      LastWriteWins(ApplyAll(s, before), rest, f, 0);
    }
  }

  /** Option 53 with value 2 is an offer (section 9.6 of RFC 2132), and nothing else is. */
  lemma OfferOption(s: Lease, opts: seq<DhcpOption>)
    ensures ApplyAll(s, opts).acquired <==>
            s.acquired || exists i :: 0 <= i < |opts| && opts[i].Opt? && opts[i].code == 53 && opts[i].value != [] && opts[i].value[0] == 2
  {
    AcquiredByOffer(s, opts);
    assert forall i :: 0 <= i < |opts| ==> (IsOffer(opts[i]) <==>
      opts[i].Opt? && opts[i].code == 53 && opts[i].value != [] && opts[i].value[0] == 2);
  }

  /** The bytes of one address option behind a pad, with the end marker 255: code, length 4, value. */
  lemma RawAddress(code: Byte, n: Uint32, after: seq<Byte>)
    requires code != 0 && code != 255
    ensures Decode([0] + ([code, 4] + Be32(n)) + ([255] + after), 0) == [Pad, Opt(code, Be32(n))]
  {
    var opts := [Pad, Opt(code, Be32(n))];
    assert opts[1..] == [Opt(code, Be32(n))] && opts[1..][1..] == [];
    assert EncodeAll(opts[1..][1..]) == [];
    assert EncodeAll(opts[1..]) == [code, 4] + Be32(n);
    assert EncodeAll(opts) == [0] + ([code, 4] + Be32(n));
    DecodeEncoded([], opts, after);
    assert [] + EncodeAll(opts) == EncodeAll(opts);
  }

  // ---------------------------------------------------------------- the walk

  class DhcpClient {
    var dhcpAcquired: bool
    var localNetmask: Uint32
    var localGateway: Uint32
    var dhcpServerIp: Uint32

    constructor ()
      ensures State() == Lease(false, 0, 0, 0)
    {
      dhcpAcquired, localNetmask, localGateway, dhcpServerIp := false, 0, 0, 0;
    }

    function State(): Lease
      reads this
    {
      Lease(dhcpAcquired, localNetmask, localGateway, dhcpServerIp)
    }

    /** parse_dhcp_options: on every input it ends, reads inside the buffer only and has exactly
        the effect of the options the stream holds. */
    method ParseDhcpOptions(options: seq<Byte>)
      modifies this
      ensures State() == ApplyAll(old(State()), Decode(options, 0))
    {
      var offset := 0;
      ghost var goal := ApplyAll(State(), Decode(options, 0));
      while offset + 2 <= |options|
        invariant 0 <= offset && ApplyAll(State(), Decode(options, offset)) == goal
        decreases |options| - offset
      {
        var opt := options[offset];
        if opt == END {
          return;
        }
        if opt == PAD {
          offset := offset + 1;
          continue;
        }
        var optLen: nat := options[offset + 1];
        if offset + 2 + optLen > |options| {
          return;
        }
        ApplyOption(opt, options[offset + 2..offset + 2 + optLen]);
        offset := offset + 2 + optLen;
      }
    }

    /** The switch of parse_dhcp_options. */
    method ApplyOption(opt: Byte, value: seq<Byte>)
      modifies this
      ensures State() == Apply(old(State()), Opt(opt, value))
    {
      if opt == MESSAGE_TYPE {
        if |value| >= 1 && value[0] == OFFER {
          dhcpAcquired := true;
        }
      } else if opt == SUBNET_MASK {
        if |value| == 4 {
          localNetmask := Address(value);
        }
      } else if opt == ROUTER {
        if |value| >= 4 {
          localGateway := Address(value);
        }
      } else if opt == SERVER_ID {
        if |value| == 4 {
          dhcpServerIp := Address(value);
        }
      }
    }
  }
}
