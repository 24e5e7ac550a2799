/** segwit_addr_encode and segwit_addr_decode of crypto/segwit_addr.c. */
module Segwit {
  import opened Radix
  import opened ConvertBits
  import opened Bech32

  /** The witness versions and program lengths that both directions allow. */
  predicate ProgramOk(version: nat, length: nat) {
    version <= 16 && 2 <= length <= 40 && (version == 0 ==> length == 20 || length == 32)
  }

  function EncodingOf(version: nat): Encoding { if version == 0 then Plain else Modified }

  /** addr is the address of the program: its bits as symbols behind the version, with the checksum of that version. */
  ghost predicate Address(hrp: string, version: nat, program: seq<nat>, symbols: seq<nat>, addr: string) {
    && Hrp(hrp) && version <= 16 && Spread(program, symbols)
    && addr == Encoded(hrp, [version] + symbols, EncodingOf(version))
  }

  /** The address decodes, for this human-readable part, to this version and program. */
  ghost predicate Decodes(hrp: string, addr: string, version: nat, program: seq<nat>) {
    && |addr| <= 90 && 1 <= |hrp| && NoUpper(hrp) && ProgramOk(version, |program|)
    && (NoUpper(addr) || NoLower(addr))
    && exists symbols :: Address(hrp, version, program, symbols, LowerAll(addr))
  }

  lemma AddressLength(hrp: string, version: nat, program: seq<nat>, symbols: seq<nat>, addr: string)
    requires Address(hrp, version, program, symbols, addr)
    ensures |addr| == |hrp| + 8 + |symbols| && Digits([version] + symbols, 32)
  {
    hide Checksum, Value, Char;
  }

  lemma AddressAccepted(hrp: string, version: nat, program: seq<nat>, symbols: seq<nat>, addr: string)
    requires Address(hrp, version, program, symbols, LowerAll(addr)) && |addr| <= 90 && 1 <= |hrp| && NoUpper(hrp)
    requires NoUpper(addr) || NoLower(addr)
    ensures Digits([version] + symbols, 32) && Accepts(addr, hrp, [version] + symbols, EncodingOf(version))
  {
    hide Checksum, Value, Char, Encoded, NoUpper, NoLower, Hrp, LowerAll;
    AddressLength(hrp, version, program, symbols, LowerAll(addr));
  }

  /** The version and program are determined by the address. */
  lemma DecodesUnique(hrp: string, addr: string, v: nat, p: seq<nat>, v': nat, p': seq<nat>)
    requires Decodes(hrp, addr, v, p) && Decodes(hrp, addr, v', p')
    ensures v == v' && p == p'
  {
    hide Address, Accepts, NoUpper, NoLower, LowerAll, Spread;
    var s :| Address(hrp, v, p, s, LowerAll(addr));
    var s' :| Address(hrp, v', p', s', LowerAll(addr));
    AddressAccepted(hrp, v, p, s, addr);
    AddressAccepted(hrp, v', p', s', addr);
    AcceptsUnique(addr, hrp, [v] + s, EncodingOf(v), hrp, [v'] + s', EncodingOf(v'));
    SameTail(v, s, v', s');
    AddressSpread(hrp, v, p, s, LowerAll(addr));
    AddressSpread(hrp, v', p', s', LowerAll(addr));
    SpreadUnique(p, s, p', s');
  }

  lemma SameTail(v: nat, s: seq<nat>, v': nat, s': seq<nat>)
    requires [v] + s == [v'] + s'
    ensures v == v' && s == s'
  {
    assert ([v] + s)[0] == v && ([v'] + s')[0] == v';
    assert ([v] + s)[1..] == s && ([v'] + s')[1..] == s';
  }

  lemma AddressSpread(hrp: string, version: nat, program: seq<nat>, symbols: seq<nat>, addr: string)
    requires Address(hrp, version, program, symbols, addr)
    ensures Spread(program, symbols)
  {
    hide Spread, Encoded, Hrp;
  }

  // ----- The two functions

  /** segwit_addr_encode; the address takes its eight bytes and the data symbols besides the human-readable part. */
  method AddrEncode(hrp: string, version: nat, program: seq<nat>) returns (ok: bool, addr: string, ghost symbols: seq<nat>)
    requires Digits(program, 256)
    ensures ok <==> ProgramOk(version, |program|) && Hrp(hrp) && NoUpper(hrp) && |hrp| + 8 + (8 * |program| + 4) / 5 <= 90
    ensures ok ==> Address(hrp, version, program, symbols, addr)
    ensures ok ==> version <= 16 && 2 <= |program| <= 40 && (version == 0 ==> |program| == 20 || |program| == 32)
    ensures ok ==> Digits([version] + symbols, 32) && addr == Encoded(hrp, [version] + symbols, if version == 0 then Plain else Modified)
  {
    hide Encoded, Hrp, NoUpper, Value, Two;
    addr, symbols := [], [];
    if version > 16 { return false, addr, symbols; }
    if version == 0 && |program| != 20 && |program| != 32 { return false, addr, symbols; }
    if |program| < 2 || |program| > 40 { return false, addr, symbols; }
    var enc := if version > 0 then Modified else Plain;
    var data := ToSymbols(program);
    symbols := data;
    ok, addr := Encode(hrp, [version] + data, enc);
  }

  /** segwit_addr_decode finds the only version and program that the address stands for. */
  method AddrDecode(hrp: string, addr: string) returns (ok: bool, version: nat, program: seq<nat>)
    ensures ok ==> Decodes(hrp, addr, version, program)
    ensures ok ==> version <= 16 && 2 <= |program| <= 40 && (version == 0 ==> |program| == 20 || |program| == 32)
    ensures !ok ==> forall v, p :: !Decodes(hrp, addr, v, p)
  {
    hide Accepts, Address, NoUpper, NoLower, Spread, LowerAll;
    version, program := 0, [];
    if |addr| > 90 { return false, 0, []; }
    var enc, actual, data := Decode(addr);
    if enc.None? {
      NothingAccepted(hrp, addr);
      return false, 0, [];
    }
    var e := enc.value;
    forall v, p | Decodes(hrp, addr, v, p)
      ensures actual == hrp && |data| >= 1 && data[0] == v && v <= 16 && e == EncodingOf(v) && ProgramOk(v, |p|) && Spread(p, data[1..]) && |data| <= 65
    {
      DecodesAs(hrp, addr, v, p, actual, data, e);
    }
    if |data| == 0 || |data| > 65 { return false, 0, []; }
    if hrp != actual { return false, 0, []; }
    if data[0] > 16 { return false, 0, []; }
    if data[0] == 0 && e != Plain { return false, 0, []; }
    if data[0] > 0 && e != Modified { return false, 0, []; }
    AcceptedDigits(addr, actual, data, e);
    var bytes: seq<nat>;
    ok, bytes := ToBytes(data[1..]);
    if !ok { return false, 0, []; }
    if |bytes| < 2 || |bytes| > 40 || (data[0] == 0 && |bytes| != 20 && |bytes| != 32) {
      forall v, p | Decodes(hrp, addr, v, p) ensures p == bytes { SpreadUnique(p, data[1..], bytes, data[1..]); }
      return false, 0, [];
    }
    AcceptedIsDecoded(hrp, addr, data, e, bytes);
    return true, data[0], bytes;
  }

  lemma NothingAccepted(hrp: string, addr: string)
    requires forall h, d, e :: !Accepts(addr, h, d, e)
    ensures forall v, p :: !Decodes(hrp, addr, v, p)
  {
    hide Accepts, Address, NoUpper, NoLower, LowerAll;
    forall v, p ensures !Decodes(hrp, addr, v, p) {
      if Decodes(hrp, addr, v, p) {
        var s :| Address(hrp, v, p, s, LowerAll(addr));
        AddressAccepted(hrp, v, p, s, addr);
      }
    }
  }

  lemma AcceptedDigits(addr: string, h: string, d: seq<nat>, e: Encoding)
    requires Accepts(addr, h, d, e)
    ensures Digits(d, 32) && Hrp(h) && 1 <= |h| && NoUpper(h) && (NoUpper(addr) || NoLower(addr)) && LowerAll(addr) == Encoded(h, d, e)
  {
    hide Encoded, Hrp, NoUpper, NoLower, LowerAll;
  }

  /** What decoding must have found when the address decodes. */
  lemma DecodesAs(hrp: string, addr: string, v: nat, p: seq<nat>, actual: string, data: seq<nat>, e: Encoding)
    requires Decodes(hrp, addr, v, p) && Accepts(addr, actual, data, e)
    ensures actual == hrp && |data| >= 1 && data[0] == v && v <= 16 && e == EncodingOf(v) && ProgramOk(v, |p|)
    ensures Spread(p, data[1..]) && |data| <= 65
  {
    hide Address, Accepts, NoUpper, NoLower, LowerAll, Spread;
    var s :| Address(hrp, v, p, s, LowerAll(addr));
    AddressAccepted(hrp, v, p, s, addr);
    AcceptsUnique(addr, hrp, [v] + s, EncodingOf(v), actual, data, e);
    AddressSpread(hrp, v, p, s, LowerAll(addr));
    assert data[1..] == s;
    SpreadLength(p, s);
  }

  lemma SpreadLength(b: seq<nat>, s: seq<nat>)
    requires Spread(b, s)
    ensures |s| == (8 * |b| + 4) / 5
  {}

  lemma AcceptedIsDecoded(hrp: string, addr: string, data: seq<nat>, e: Encoding, bytes: seq<nat>)
    requires Accepts(addr, hrp, data, e) && |addr| <= 90 && |data| >= 1 && data[0] <= 16 && e == EncodingOf(data[0])
    requires Spread(bytes, data[1..]) && ProgramOk(data[0], |bytes|)
    ensures Decodes(hrp, addr, data[0], bytes)
  {
    hide Encoded, Hrp, NoUpper, NoLower, LowerAll, Spread;
    AcceptedDigits(addr, hrp, data, e);
    assert data == [data[0]] + data[1..];
    assert Address(hrp, data[0], bytes, data[1..], LowerAll(addr));
  }

  // ----- Both directions

  lemma AddressIsLower(hrp: string, version: nat, program: seq<nat>, symbols: seq<nat>, addr: string)
    requires Address(hrp, version, program, symbols, addr) && NoUpper(hrp)
    ensures NoUpper(addr) && LowerAll(addr) == addr
  {
    hide Checksum, Value, Char, Spread;
    var data := [version] + symbols;
    AddressLength(hrp, version, program, symbols, addr);
    CharsAreData(data + Checksum(hrp, data, EncodingOf(version)));
    LowerAllIs(addr);
  }

  /** Every address that is encoded with a nonempty human-readable part decodes to its version and program. */
  method EncodeThenDecode(hrp: string, version: nat, program: seq<nat>) returns (ok: bool, decoded: bool, v: nat, p: seq<nat>)
    requires Digits(program, 256) && hrp != []
    ensures ok <==> ProgramOk(version, |program|) && Hrp(hrp) && NoUpper(hrp) && |hrp| + 8 + (8 * |program| + 4) / 5 <= 90
    ensures ok ==> decoded && v == version && p == program
  {
    hide Address, NoUpper, NoLower, LowerAll, Hrp;
    decoded, v, p := false, 0, [];
    var addr: string;
    ghost var symbols: seq<nat>;
    ok, addr, symbols := AddrEncode(hrp, version, program);
    if ok {
      AddressIsLower(hrp, version, program, symbols, addr);
      AddressLength(hrp, version, program, symbols, addr);
      AddressSpread(hrp, version, program, symbols, addr);
      SpreadLength(program, symbols);
      assert Decodes(hrp, addr, version, program);
      decoded, v, p := AddrDecode(hrp, addr);
      if decoded { DecodesUnique(hrp, addr, version, program, v, p); }
    }
  }

  /** Every address that decodes is, in lower case, the encoding of what it decodes to. */
  method DecodeThenEncode(hrp: string, addr: string) returns (ok: bool, encoded: bool, again: string)
    ensures ok ==> encoded && again == LowerAll(addr)
  {
    hide Address, NoUpper, NoLower, LowerAll, Spread;
    encoded, again := false, [];
    var version, program := 0, [];
    ok, version, program := AddrDecode(hrp, addr);
    if ok {
      ghost var s :| Address(hrp, version, program, s, LowerAll(addr));
      AddressLength(hrp, version, program, s, LowerAll(addr));
      AddressSpread(hrp, version, program, s, LowerAll(addr));
      SpreadLength(program, s);
      SpreadDigits(program, s);
      AddressHrp(hrp, version, program, s, LowerAll(addr));
      ghost var t: seq<nat>;
      encoded, again, t := AddrEncode(hrp, version, program);
      AddressSpread(hrp, version, program, t, again);
      SpreadUnique(program, s, program, t);
      SameAddress(hrp, version, program, s, LowerAll(addr), again);
    }
  }

  lemma SpreadDigits(b: seq<nat>, s: seq<nat>)
    requires Spread(b, s)
    ensures Digits(b, 256)
  {}

  lemma AddressHrp(hrp: string, version: nat, program: seq<nat>, symbols: seq<nat>, addr: string)
    requires Address(hrp, version, program, symbols, addr)
    ensures Hrp(hrp)
  {
    hide Spread, Encoded, Hrp;
  }

  lemma SameAddress(hrp: string, version: nat, program: seq<nat>, symbols: seq<nat>, a: string, b: string)
    requires Address(hrp, version, program, symbols, a) && Address(hrp, version, program, symbols, b)
    ensures a == b
  {
    hide Spread, Encoded, Hrp;
  }

  /** Section "Segwit address format" of BIP-173 and BIP-350: which programs have an address. */
  lemma ProgramRule(version: nat, length: nat)
    ensures ProgramOk(version, length) <==>
            (version == 0 && (length == 20 || length == 32)) || (0 < version <= 16 && 2 <= length <= 40)
    ensures EncodingOf(version) == Plain <==> version == 0
  {}
}
