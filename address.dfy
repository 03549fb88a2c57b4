/**
  `IPv4Address`: four octets held in an array, with conversions to and from a 32-bit
  integer (octet 0 least significant), dotted-decimal rendering and structural equality.
*/
module Address {
  import opened Ints
  import opened Errors
  import Decimal

  datatype Option<T> = None | Some(value: T)

  /** `std::array<uint8_t, 4>`. */
  type Octets = s: seq<uint8> | |s| == 4 witness [0, 0, 0, 0]

  datatype IPv4Address = IPv4Address(octets: Octets)

  /** `IPv4Address()`: all four octets zero, so the integer form is 0 and the text is "0.0.0.0". */
  function Default(): (a: IPv4Address)
    ensures forall i | 0 <= i < 4 :: a.octets[i] == 0
    ensures ToUint32(a) == 0
    ensures ToString(a) == "0.0.0.0"
  {
    IPv4Address([0, 0, 0, 0])
  }

  /** `IPv4Address(a, b, c, d)`: the octets in argument order, `a` the low byte of the integer form. */
  function Of(a: uint8, b: uint8, c: uint8, d: uint8): (r: IPv4Address)
    ensures ToUint32(r) == a as int + b as int * 0x100 + c as int * 0x1_0000 + d as int * 0x100_0000
  {
    IPv4Address([a, b, c, d])
  }

  /** `kLocalHost`, `kAny`, `kBroadcast`. */
  const LocalHost: IPv4Address := Of(127, 0, 0, 1)
  const Any: IPv4Address := Of(0, 0, 0, 0)
  const Broadcast: IPv4Address := Of(255, 255, 255, 255)

  /** `to_uint32()`: octet k contributes bits 8k..8k+7 (the shifted parts do not overlap, so `|` is `+`). */
  function ToUint32(a: IPv4Address): (w: uint32)
    ensures w % 0x100 == a.octets[0] && (w / 0x100) % 0x100 == a.octets[1]
    ensures (w / 0x1_0000) % 0x100 == a.octets[2] && (w / 0x100_0000) % 0x100 == a.octets[3]
  {
    Ints.JoinBytes(a.octets[0], a.octets[1], a.octets[2], a.octets[3]);
    a.octets[0] as int + a.octets[1] as int * 0x100 + a.octets[2] as int * 0x1_0000
    + a.octets[3] as int * 0x100_0000
  }

  /** `IPv4Address(uint32_t)`: octet k is `(w >> 8k) & 0xFF`; converting back gives `w`. */
  function FromUint32(w: uint32): (a: IPv4Address)
    ensures ToUint32(a) == w
  {
    Ints.SplitBytes(w);
    IPv4Address([w % 0x100, (w / 0x100) % 0x100, (w / 0x1_0000) % 0x100, (w / 0x100_0000) % 0x100])
  }

  /** Converting an address to an integer and back gives the same octets. */
  lemma IntegerRoundTrip(a: IPv4Address)
    ensures FromUint32(ToUint32(a)) == a
  {
    var o := a.octets;
    Ints.JoinBytes(o[0], o[1], o[2], o[3]);
    assert FromUint32(ToUint32(a)).octets == o;
  }

  /** `operator==`: the four octets agree, and nothing else is compared. */
  function Eq(a: IPv4Address, b: IPv4Address): (r: bool)
    ensures r <==> a == b
    ensures r <==> forall i | 0 <= i < 4 :: a.octets[i] == b.octets[i]
  {
    a.octets == b.octets
  }

  /** `operator!=`: some octet differs, exactly when `==` is false. */
  function Neq(a: IPv4Address, b: IPv4Address): (r: bool)
    ensures r <==> !Eq(a, b)
    ensures r <==> exists i | 0 <= i < 4 :: a.octets[i] != b.octets[i]
  {
    !Eq(a, b)
  }

  /** `to_string()`: each octet printed as an `int`, separated by dots; 7 to 15 characters. */
  function ToString(a: IPv4Address): (s: string)
    ensures 7 <= |s| <= 15
  {
    Decimal.OctetWidth(a.octets[0]);
    Decimal.OctetWidth(a.octets[1]);
    Decimal.OctetWidth(a.octets[2]);
    Decimal.OctetWidth(a.octets[3]);
    Decimal.Render(a.octets[0]) + "." + Decimal.Render(a.octets[1]) + "."
    + Decimal.Render(a.octets[2]) + "." + Decimal.Render(a.octets[3])
  }

  // ---------------------------------------------------------------------------------------
  // Reference reading of canonical dotted-decimal text, used to characterise `ToString`.

  /** The pieces of `s` between dots, in order: `"a.b"` has the fields `"a"` and `"b"`. */
  function Fields(s: string): (fs: seq<string>)
    ensures |fs| >= 1
    decreases |s|
  {
    if s == [] then [[]]
    else
      var rest := Fields(s[1..]);
      if s[0] == '.' then [[]] + rest else [[s[0]] + rest[0]] + rest[1..]
  }

  /** The fields put back together with a dot between neighbours. */
  function Join(fs: seq<string>): string
    requires |fs| >= 1
    decreases |fs|
  {
    if |fs| == 1 then fs[0] else fs[0] + "." + Join(fs[1..])
  }

  /** One octet of canonical dotted-decimal notation: a canonical numeral below 256. */
  predicate IsOctetField(f: string)
  {
    Decimal.Canonical(f) && Decimal.Value(f) < 0x100
  }

  /** Canonical dotted decimal: exactly four octet fields separated by three dots. */
  function ParseDotted(s: string): Option<IPv4Address>
  {
    var fs := Fields(s);
    if |fs| == 4 && forall i | 0 <= i < 4 :: IsOctetField(fs[i]) then
      Some(IPv4Address([Decimal.Value(fs[0]), Decimal.Value(fs[1]), Decimal.Value(fs[2]), Decimal.Value(fs[3])]))
    else
      None
  }

  /** Text without a dot is a single field. */
  lemma {:induction false} FieldsOfUndotted(x: string)
    requires '.' !in x
    ensures Fields(x) == [x]
    decreases |x|
  {
    if x != [] {
      assert x[0] != '.' && '.' !in x[1..];
      FieldsOfUndotted(x[1..]);
      assert [x[0]] + x[1..] == x;
    }
  }

  /** A dot after dot-free text ends the first field. */
  lemma {:induction false} FieldsOfDotted(x: string, y: string)
    requires '.' !in x
    ensures Fields(x + "." + y) == [x] + Fields(y)
    decreases |x|
  {
    var s := x + "." + y;
    if x == [] {
      assert s[1..] == y;
    } else {
      assert s[1..] == x[1..] + "." + y;
      assert '.' !in x[1..];
      FieldsOfDotted(x[1..], y);
      assert [s[0]] + x[1..] == x;
    }
  }

  /** Joining the fields of a string rebuilds it. */
  lemma {:induction false} JoinFields(s: string)
    ensures Join(Fields(s)) == s
    decreases |s|
  {
    if s != [] {
      var rest := Fields(s[1..]);
      JoinFields(s[1..]);
      if s[0] == '.' {
        assert Join(Fields(s)) == [] + "." + Join(rest);
      } else if |rest| == 1 {
        assert Join(Fields(s)) == [s[0]] + rest[0];
      } else {
        assert Join(rest) == rest[0] + "." + Join(rest[1..]);
        assert Join(Fields(s)) == ([s[0]] + rest[0]) + "." + Join(rest[1..]);
      }
    }
  }

  lemma NoDotInNumeral(n: nat)
    ensures '.' !in Decimal.Render(n)
  {
  }

  /** Four dot-free pieces joined by dots split back into those four pieces. */
  lemma FieldsOfFour(r0: string, r1: string, r2: string, r3: string)
    requires '.' !in r0 && '.' !in r1 && '.' !in r2 && '.' !in r3
    ensures Fields(r0 + "." + r1 + "." + r2 + "." + r3) == [r0, r1, r2, r3]
  {
    var t2 := r2 + "." + r3;
    var t1 := r1 + "." + t2;
    FieldsOfUndotted(r3);
    FieldsOfDotted(r2, r3);
    FieldsOfDotted(r1, t2);
    FieldsOfDotted(r0, t1);
    assert r0 + "." + r1 + "." + r2 + "." + r3 == r0 + "." + t1;
  }

  /**
    `to_string()` writes four fields separated by three dots; field k is the canonical numeral
    of octet k, in 0..255 with no leading zero.
  */
  lemma ToStringFields(a: IPv4Address)
    ensures var fs := Fields(ToString(a));
            && |fs| == 4
            && forall i | 0 <= i < 4 :: IsOctetField(fs[i]) && Decimal.Value(fs[i]) == a.octets[i]
  {
    var rs := seq(4, i requires 0 <= i < 4 => Decimal.Render(a.octets[i]));
    NoDotInNumeral(a.octets[0]);
    NoDotInNumeral(a.octets[1]);
    NoDotInNumeral(a.octets[2]);
    NoDotInNumeral(a.octets[3]);
    FieldsOfFour(rs[0], rs[1], rs[2], rs[3]);
    assert Fields(ToString(a)) == rs;
    forall i | 0 <= i < 4
      ensures IsOctetField(rs[i]) && Decimal.Value(rs[i]) == a.octets[i]
    {
      Decimal.ValueOfRender(a.octets[i]);
    }
  }

  /**
    The rendering is exactly canonical dotted decimal: a string reads as address `a` if and only
    if it is what `to_string()` writes for `a`.
  */
  lemma DottedDecimal(s: string, a: IPv4Address)
    ensures ParseDotted(s) == Some(a) <==> ToString(a) == s
  {
    if ToString(a) == s {
      ToStringFields(a);
      var fs := Fields(s);
      assert [Decimal.Value(fs[0]), Decimal.Value(fs[1]), Decimal.Value(fs[2]), Decimal.Value(fs[3])] == a.octets;
    }
    if ParseDotted(s) == Some(a) {
      var fs := Fields(s);
      forall i | 0 <= i < 4
        ensures Decimal.Render(a.octets[i]) == fs[i]
      {
        Decimal.RenderOfValue(fs[i]);
      }
      JoinFields(s);
      assert Join(fs[3..]) == fs[3];
      assert Join(fs[2..]) == fs[2] + "." + fs[3];
      assert Join(fs[1..]) == fs[1] + "." + (fs[2] + "." + fs[3]);
      assert Join(fs) == fs[0] + "." + (fs[1] + "." + (fs[2] + "." + fs[3]));
    }
  }

  /** Equal addresses render identically, and different addresses render differently. */
  lemma ToStringInjective(a: IPv4Address, b: IPv4Address)
    ensures ToString(a) == ToString(b) <==> Eq(a, b)
  {
    DottedDecimal(ToString(a), a);
    DottedDecimal(ToString(a), b);
  }

  /** The four-octet constructor keeps argument order in the text: `a` is printed first (see `Of` for the integer form). */
  lemma OctetOrder(a: uint8, b: uint8, c: uint8, d: uint8)
    ensures ToString(Of(a, b, c, d))
            == Decimal.Render(a) + "." + Decimal.Render(b) + "." + Decimal.Render(c) + "." + Decimal.Render(d)
  {
  }

  /** The three well-known constants; `Default` gives the text and integer form of `Any`. */
  lemma WellKnownAddresses()
    ensures Any == Default()
    ensures ToString(LocalHost) == "127.0.0.1"
    ensures ToString(Broadcast) == "255.255.255.255"
    ensures ToUint32(LocalHost) == 0x0100_007F
    ensures ToUint32(Broadcast) == 0xFFFF_FFFF
  {
    assert Decimal.Render(127) == "127";
    assert Decimal.Render(255) == "255";
  }

  /**
    `from_string`: `inet_pton` is a foreign parser and is not modelled; its status and the
    32-bit `s_addr` it writes are parameters. A status of zero or less is an
    `AddressParseError`; otherwise `s_addr` is split into octets as `IPv4Address(uint32_t)` does.
  */
  function FromString(ptonStatus: int, sAddr: uint32): (r: Result<IPv4Address>)
    ensures r.Err? <==> ptonStatus <= 0
    ensures r.Err? ==> r.error == AddressParseError
    ensures r.Ok? ==> ToUint32(r.value) == sAddr
  {
    if ptonStatus <= 0 then Err(AddressParseError) else Ok(FromUint32(sAddr))
  }
}
