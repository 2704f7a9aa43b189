/** The value type `BridgeSpec` of bridget.py: one serial-to-UDP link, its persisted
    form `BridgeSettingsSpecV1`, its canonical string form and the hash built on it. */
module BridgeSpecs {
  import opened Wrappers
  import opened Decimal

  /** The pydantic bound `conint(gt=1023, lt=65536)` on the UDP port. */
  predicate IsUdpPort(p: int) {
    1023 < p < 65536
  }

  type UdpPort = p: int | IsUdpPort(p) witness 1024

  /** A validated link description; the baud rate is the integer value of the
      `Baudrate` enumeration member. Equality is field equality, as for pydantic models. */
  datatype BridgeSpec = BridgeSpec(serialPath: string, baud: nat, ip: string, udpPort: UdpPort)

  /** The persisted entry, whose port carries no bound of its own. */
  datatype BridgeSettingsSpec = BridgeSettingsSpec(serialPath: string, baudrate: nat, ip: string, udpPort: int)

  /** The validation error pydantic raises for a port out of range. */
  datatype SpecError = InvalidUdpPort(port: int)

  /** Building a `BridgeSpec` succeeds exactly when the port lies in 1024..65535,
      and then carries the given fields. */
  function NewBridgeSpec(serialPath: string, baud: nat, ip: string, udpPort: int): (r: Result<BridgeSpec, SpecError>)
    ensures r.Success? <==> 1024 <= udpPort <= 65535
    ensures r.Success? ==> r.value.serialPath == serialPath && r.value.baud == baud
                           && r.value.ip == ip && r.value.udpPort == udpPort
    ensures r.Failure? ==> r.error == InvalidUdpPort(udpPort)
  {
    if IsUdpPort(udpPort) then Success(BridgeSpec(serialPath, baud, ip, udpPort))
    else Failure(InvalidUdpPort(udpPort))
  }

  /** `BridgeSpec.from_settings_spec`: the four fields are copied one to one; the
      port bound is checked on the way. */
  function FromSettingsSpec(ss: BridgeSettingsSpec): (r: Result<BridgeSpec, SpecError>)
    ensures r.Success? <==> 1024 <= ss.udpPort <= 65535
    ensures r.Success? ==> r.value.serialPath == ss.serialPath && r.value.baud == ss.baudrate
                           && r.value.ip == ss.ip && r.value.udpPort == ss.udpPort
  {
    NewBridgeSpec(ss.serialPath, ss.baudrate, ss.ip, ss.udpPort)
  }

  /** `BridgeSettingsSpecV1.from_spec` (not part of this model): taken to copy the four
      fields back, so that it inverts `FromSettingsSpec`. */
  function ToSettingsSpec(b: BridgeSpec): (ss: BridgeSettingsSpec)
    ensures FromSettingsSpec(ss) == Success(b)
  {
    BridgeSettingsSpec(b.serialPath, b.baud, b.ip, b.udpPort)
  }

  /** The other direction of the round trip: an entry that converts comes back unchanged. */
  lemma SettingsRoundTrip(ss: BridgeSettingsSpec)
    requires FromSettingsSpec(ss).Success?
    ensures ToSettingsSpec(FromSettingsSpec(ss).value) == ss
  {
  }

  /** `ToSettingsSpec` is one-to-one, so distinct links have distinct persisted entries. */
  lemma ToSettingsSpecInjective(a: BridgeSpec, b: BridgeSpec)
    requires ToSettingsSpec(a) == ToSettingsSpec(b)
    ensures a == b
  {
    assert FromSettingsSpec(ToSettingsSpec(a)) == Success(a);
  }

  /** `__str__`: `serial_path:baud//ip:udp_port`. */
  function ToString(b: BridgeSpec): (s: string)
    ensures |s| == |b.serialPath| + |NatToDecimal(b.baud)| + |b.ip| + |NatToDecimal(b.udpPort)| + 4
    ensures s[..|b.serialPath|] == b.serialPath && s[|b.serialPath|] == ':'
  {
    b.serialPath + ":" + NatToDecimal(b.baud) + "//" + b.ip + ":" + NatToDecimal(b.udpPort)
  }

  /** `__hash__`: the hash of the string form. Python's string hash is outside the
      model and is passed in. */
  function Hash(b: BridgeSpec, strHash: string -> int): int
  {
    strHash(ToString(b))
  }

  /** What follows the last ':' of `s`, if `s` has one. */
  function AfterLastColon(s: string): Option<string>
  {
    if s == [] then None
    else if s[|s| - 1] == ':' then Some([])
    else match AfterLastColon(s[..|s| - 1])
      case None => None
      case Some(t) => Some(t + [s[|s| - 1]])
  }

  /** Reads a port back from a string form: the digits after the last ':'. */
  function PortOf(s: string): Option<nat>
  {
    match AfterLastColon(s)
    case Some(t) => if t != [] && AllDigits(t) then Some(ParseDecimal(t)) else None
    case None => None
  }

  lemma {:induction false} AfterLastColonOfSuffix(p: string, t: string)
    requires forall i :: 0 <= i < |t| ==> t[i] != ':'
    ensures AfterLastColon(p + ":" + t) == Some(t)
  {
    var s := p + ":" + t;
    if t == [] {
      assert s[|s| - 1] == ':';
    } else {
      var t' := t[..|t| - 1];
      assert s[..|s| - 1] == p + ":" + t';
      AfterLastColonOfSuffix(p, t');
      assert t' + [t[|t| - 1]] == t;
    }
  }

  /** The string form ends in the port: the port can be read back from it. */
  lemma PortOfStringForm(b: BridgeSpec)
    ensures PortOf(ToString(b)) == Some(b.udpPort as nat)
  {
    var digits := NatToDecimal(b.udpPort);
    var head := b.serialPath + ":" + NatToDecimal(b.baud) + "//" + b.ip;
    assert ToString(b) == head + ":" + digits;
    AfterLastColonOfSuffix(head, digits);
    ParseNatToDecimal(b.udpPort);
  }

  /** Two specs whose string forms agree have the same port. */
  lemma SameStringFormSamePort(a: BridgeSpec, b: BridgeSpec)
    requires ToString(a) == ToString(b)
    ensures a.udpPort == b.udpPort
  {
    PortOfStringForm(a);
    PortOfStringForm(b);
  }

  /** Specs with equal string forms hash equally, and equal specs hash equally:
      the hash agrees with equality, as a dictionary key must. */
  lemma EqualStringFormsHashEqually(a: BridgeSpec, b: BridgeSpec, strHash: string -> int)
    requires ToString(a) == ToString(b) || a == b
    ensures Hash(a, strHash) == Hash(b, strHash)
  {
  }

  /** The string form does not identify a spec: ':' and '//' may occur inside the path
      and the address, so distinct specs can share a string form (and a hash). The
      registry's table still tells them apart by field equality. */
  lemma StringFormNotInjective()
    ensures exists a: BridgeSpec, b: BridgeSpec :: a != b && ToString(a) == ToString(b)
  {
    var a := BridgeSpec("s", 1, "x:2//y", 1024);
    var b := BridgeSpec("s:1//x", 2, "y", 1024);
    assert NatToDecimal(1) == "1" && NatToDecimal(2) == "2";
    assert ToString(a) == "s:1//x:2//y" + ":" + NatToDecimal(1024);
    assert ToString(b) == "s:1//x:2//y" + ":" + NatToDecimal(1024);
    assert a != b && ToString(a) == ToString(b);
  }
}
