/**
 TPM 2.0 marshalling: the command builder with its patched size, the response parser with its cursor,
 PCR selections, and the response to TPM2_PCR_Read.
 */
module Tpm2Wire {
  import opened Bytes
  import opened Division
  import opened Text

  const TAG_NO_SESSIONS: nat := 0x8001
  const TAG_SESSIONS: nat := 0x8002
  const CC_PCR_READ: nat := 0x17E
  const CC_LOAD: nat := 0x157
  const RS_PW: nat := 0x4000_0009
  const RC_SUCCESS: nat := 0
  const HEADER: nat := 10

  // ---------- commands ----------

  /** A command: tag, size, code and parameters. */
  function Command(tag: nat, code: nat, parameters: seq<byte>): seq<byte>
  {
    BigEndian(tag, 2) + BigEndian(HEADER + |parameters|, 4) + BigEndian(code, 4) + parameters
  }

  /** Two and four bytes, most significant first. */
  function Two(n: nat): seq<byte> { [n / 0x100 % 0x100, n % 0x100] }

  function Four(n: nat): seq<byte> { [n / 0x100_0000 % 0x100, n / 0x1_0000 % 0x100, n / 0x100 % 0x100, n % 0x100] }

  lemma BigEndianBytes(n: nat)
    ensures BigEndian(n, 2) == Two(n) && BigEndian(n, 4) == Four(n)
  {
    assert BigEndian(n, 1) == [n % 0x100];
    assert BigEndian(n / 0x100, 1) == [n / 0x100 % 0x100];
    assert BigEndian(n / 0x1_0000, 2) == Two(n / 0x1_0000) by {
      assert BigEndian(n / 0x1_0000 / 0x100, 1) == [n / 0x1_0000 / 0x100 % 0x100];
    }
    assert n / 0x100 / 0x100 == n / 0x1_0000 && n / 0x1_0000 / 0x100 == n / 0x100_0000;
    assert BigEndian(n / 0x100, 3) == BigEndian(n / 0x1_0000, 2) + [n / 0x100 % 0x100];
  }

  /** The bytes of a command: tag, the size of all of it, code, parameters. */
  lemma CommandBytes(tag: nat, code: nat, parameters: seq<byte>)
    ensures Command(tag, code, parameters) == Two(tag) + Four(10 + |parameters|) + Four(code) + parameters
    ensures |Command(tag, code, parameters)| == 10 + |parameters|
  {
    hide BigEndian, Two, Four;
    BigEndianBytes(tag);
    BigEndianBytes(code);
    BigEndianBytes(HEADER + |parameters|);
  }

  class CmdBuilder {
    var buf: seq<byte>
    ghost var tag: nat
    ghost var code: nat
    ghost var parameters: seq<byte>

    /** The buffer is the command but for its size. */
    ghost predicate Valid()
      reads this
    {
      |buf| == HEADER + |parameters| && buf[..2] == BigEndian(tag, 2) && buf[6..10] == BigEndian(code, 4) && buf[10..] == parameters
    }

    constructor (tag: nat, code: nat)
      ensures Valid() && this.tag == tag && this.code == code && parameters == []
    {
      this.tag, this.code, parameters := tag, code, [];
      buf := BigEndian(tag, 2) + BigEndian(0, 4) + BigEndian(code, 4);
    }

    method PutBytes(data: seq<byte>)
      requires Valid()
      modifies this
      ensures Valid() && tag == old(tag) && code == old(code) && parameters == old(parameters) + data
    {
      buf := buf + data;
      parameters := parameters + data;
    }

    method PutU16(v: nat)
      requires Valid()
      modifies this
      ensures Valid() && tag == old(tag) && code == old(code) && parameters == old(parameters) + BigEndian(v, 2)
    {
      PutBytes(BigEndian(v, 2));
    }

    method PutU32(v: nat)
      requires Valid()
      modifies this
      ensures Valid() && tag == old(tag) && code == old(code) && parameters == old(parameters) + BigEndian(v, 4)
    {
      PutBytes(BigEndian(v, 4));
    }

    /** A length of 16 bits, whatever it is, and the bytes. */
    method PutTpm2b(data: seq<byte>)
      requires Valid()
      modifies this
      ensures Valid() && tag == old(tag) && code == old(code) && parameters == old(parameters) + Tpm2b(data)
    {
      PutU16(|data|);
      PutBytes(data);
      assert old(parameters) + BigEndian(|data|, 2) + data == old(parameters) + Tpm2b(data);
    }

    /** The authorization area of an empty password: its size, handle, nonce, attributes and hmac. */
    method PutPwAuth()
      requires Valid()
      modifies this
      ensures Valid() && tag == old(tag) && code == old(code) && parameters == old(parameters) + Sized32(PasswordSession())
    {
      hide BigEndian;
      PutU32(9);
      PutU32(RS_PW);
      PutU16(0);
      PutBytes([1]);
      PutU16(0);
      assert parameters == old(parameters) + (BigEndian(9, 4) + (BigEndian(RS_PW, 4) + BigEndian(0, 2) + [1] + BigEndian(0, 2)));
    }

    /** Patches the size in place, which completes the command. */
    method Finalize()
      requires Valid()
      modifies this
      ensures Valid() && buf == Command(old(tag), old(code), old(parameters))
    {
      var size := BigEndian(|buf|, 4);
      assert buf == buf[..2] + buf[2..6] + buf[6..10] + buf[10..];
      buf := buf[..2] + size + buf[6..];
    }
  }

  function Tpm2b(data: seq<byte>): seq<byte> { BigEndian(|data|, 2) + data }

  function Sized32(area: seq<byte>): seq<byte> { BigEndian(|area|, 4) + area }

  function PasswordSession(): (s: seq<byte>)
    ensures |s| == 9
  {
    BigEndian(RS_PW, 4) + BigEndian(0, 2) + [1] + BigEndian(0, 2)
  }

  /** The request that loads an object under its parent. */
  function LoadRequest(parent: nat, private: seq<byte>, public: seq<byte>): seq<byte>
  {
    Command(TAG_SESSIONS, CC_LOAD, BigEndian(parent, 4) + Sized32(PasswordSession()) + Tpm2b(private) + Tpm2b(public))
  }

  /** The bytes of a load request: header, parent, an empty password session after its size, and the two parts after theirs. */
  lemma LoadRequestBytes(parent: nat, private: seq<byte>, public: seq<byte>)
    ensures LoadRequest(parent, private, public)
         == [0x80, 0x02] + Four(31 + |private| + |public|) + [0, 0, 0x01, 0x57]
            + (Four(parent) + [0, 0, 0, 9] + [0x40, 0, 0, 0x09, 0, 0, 1, 0, 0]
               + (Two(|private|) + private) + (Two(|public|) + public))
  {
    hide BigEndian, Command, Two, Four, PasswordSession;
    BigEndianBytes(parent);
    BigEndianBytes(9);
    BigEndianBytes(|private|);
    BigEndianBytes(|public|);
    PasswordSessionBytes();
    var parameters := BigEndian(parent, 4) + Sized32(PasswordSession()) + Tpm2b(private) + Tpm2b(public);
    CommandBytes(TAG_SESSIONS, CC_LOAD, parameters);
    LoadConstants();
    assert |parameters| == 21 + |private| + |public|;
  }

  lemma PasswordSessionBytes()
    ensures PasswordSession() == [0x40, 0, 0, 0x09, 0, 0, 1, 0, 0]
  {
    hide BigEndian;
    BigEndianBytes(0);
    BigEndianBytes(RS_PW);
  }

  lemma LoadConstants()
    ensures Two(TAG_SESSIONS) == [0x80, 0x02] && Four(CC_LOAD) == [0, 0, 0x01, 0x57] && Four(9) == [0, 0, 0, 9]
    ensures forall n: nat :: |Four(n)| == 4 && |Two(n)| == 2
  {
  }

  method LoadCommand(parent: u32, private: seq<byte>, public: seq<byte>) returns (r: seq<byte>)
    ensures r == LoadRequest(parent, private, public)
  {
    hide BigEndian, Tpm2b, Sized32, PasswordSession, Command;
    var cmd := new CmdBuilder(TAG_SESSIONS, CC_LOAD);
    cmd.PutU32(parent);
    cmd.PutPwAuth();
    cmd.PutTpm2b(private);
    cmd.PutTpm2b(public);
    assert [] + BigEndian(parent, 4) == BigEndian(parent, 4);
    cmd.Finalize();
    r := cmd.buf;
  }

  // ---------- responses ----------

  /** A successful response: tag, size, response code and the bytes after it. */
  function Response(tag: nat, body: seq<byte>): seq<byte>
  {
    BigEndian(tag, 2) + BigEndian(HEADER + |body|, 4) + BigEndian(RC_SUCCESS, 4) + body
  }

  /** The body of a response, unless the header is short, sizes the buffer too large or carries an error. */
  function ResponseBody(buf: seq<byte>): Option<seq<byte>>
  {
    if |buf| < HEADER then None
    else
      var size, rc := FromBigEndian(buf[2..6]), FromBigEndian(buf[6..10]);
      if size > |buf| || rc != RC_SUCCESS then None else Some(if size < HEADER then [] else buf[HEADER..size])
  }

  /** A response is taken exactly when it has a header, is no shorter than it says, and carries no error. */
  lemma ResponseTaken(buf: seq<byte>)
    requires |buf| >= 10
    ensures var size := 0x100_0000 * (buf[2] as int) + 0x1_0000 * (buf[3] as int) + 0x100 * (buf[4] as int) + buf[5];
      ResponseBody(buf)
      == if size > |buf| || buf[6] != 0 || buf[7] != 0 || buf[8] != 0 || buf[9] != 0 then None
         else Some(if size < 10 then [] else buf[10..size])
  {
    hide FromBigEndian;
    FromFour(buf[2..6]);
    FromFour(buf[6..10]);
  }

  lemma FromFour(s: seq<byte>)
    requires |s| == 4
    ensures FromBigEndian(s) == 0x100_0000 * (s[0] as int) + 0x1_0000 * (s[1] as int) + 0x100 * (s[2] as int) + s[3]
  {
    assert s[..3][..2] == s[..2] && s[..2][..1] == s[..1] && s[..1][..0] == [];
    assert FromBigEndian(s[..1]) == s[0];
    assert FromBigEndian(s[..2]) == 256 * FromBigEndian(s[..1]) + s[1];
    assert FromBigEndian(s[..3]) == 256 * FromBigEndian(s[..2]) + s[2];
  }

  lemma ShortResponse(buf: seq<byte>)
    ensures |buf| < 10 ==> ResponseBody(buf) == None
  {
  }

  /** Reads along the rest of a response. */
  class RespParser {
    var buf: seq<byte>
    var pos: nat

    predicate Valid()
      reads this
    {
      pos <= |buf|
    }

    function Rest(): seq<byte>
      requires Valid()
      reads this
    {
      buf[pos..]
    }

    constructor (body: seq<byte>)
      ensures Valid() && Rest() == body
    {
      buf, pos := body, 0;
    }

    method GetBytes(n: nat) returns (r: Option<seq<byte>>)
      requires Valid()
      modifies this`pos
      ensures Valid()
      ensures if |old(Rest())| < n then r == None && Rest() == old(Rest())
              else r == Some(old(Rest())[..n]) && Rest() == old(Rest())[n..]
    {
      if |buf| - pos < n {
        return None;
      }
      r := Some(buf[pos..pos + n]);
      assert buf[pos..pos + n] == buf[pos..][..n] && buf[pos + n..] == buf[pos..][n..];
      pos := pos + n;
    }

    method GetNumber(width: nat) returns (r: Option<nat>)
      requires Valid()
      modifies this`pos
      ensures Valid()
      ensures if |old(Rest())| < width then r == None && Rest() == old(Rest())
              else r == Some(FromBigEndian(old(Rest())[..width])) && Rest() == old(Rest())[width..]
    {
      var bytes := GetBytes(width);
      r := if bytes.Some? then Some(FromBigEndian(bytes.value)) else None;
    }

    method GetTpm2b() returns (r: Option<seq<byte>>)
      requires Valid()
      modifies this`pos
      ensures Valid()
      ensures (match TakeTpm2b(old(Rest())) case None => r == None case Some((data, rest)) => r == Some(data) && Rest() == rest)
    {
      var size := GetNumber(2);
      if size.None? {
        return None;
      }
      r := GetBytes(size.value);
    }
  }

  /** A sized byte string off the front, and what follows it. */
  function TakeTpm2b(s: seq<byte>): Option<(seq<byte>, seq<byte>)>
  {
    if |s| < 2 || |s| - 2 < FromBigEndian(s[..2]) then None
    else var n := FromBigEndian(s[..2]); Some((s[2..][..n], s[2..][n..]))
  }

  function TakeTpm2bs(s: seq<byte>, count: nat): Option<seq<seq<byte>>>
  {
    if count == 0 then Some([])
    else match TakeTpm2b(s)
      case None => None
      case Some((data, rest)) =>
        match TakeTpm2bs(rest, count - 1) case None => None case Some(more) => Some([data] + more)
  }

  /** What follows `count` PCR selections: a hash, a size and as many bytes each. */
  function SkipSelections(s: seq<byte>, count: nat): Option<seq<byte>>
  {
    if count == 0 then Some(s)
    else if |s| < 3 || |s| - 3 < s[2] then None
    else SkipSelections(s[3..][s[2]..], count - 1)
  }

  /** The handle and the two parts that a TPM takes from the parameters of a load, all of which it uses up. */
  function TakenLoad(parameters: seq<byte>): Option<(nat, seq<byte>, seq<byte>)>
  {
    if |parameters| < 8 || |parameters| - 8 < FromBigEndian(parameters[4..8]) then None
    else match TakeTpm2b(parameters[8..][FromBigEndian(parameters[4..8])..])
      case None => None
      case Some((private, rest)) =>
        match TakeTpm2b(rest)
        case None => None
        case Some((public, end)) =>
          if end == [] then Some((FromBigEndian(parameters[..4]), private, public)) else None
  }

  /** What a TPM takes where a part was written: the part itself exactly when its length fits 16 bits. */
  lemma TakesPart(data: seq<byte>, rest: seq<byte>)
    ensures var t := TakeTpm2b(Tpm2b(data) + rest);
      t.Some? && t.value.0 == data <==> |data| < 0x1_0000
    ensures |data| < 0x1_0000 ==> TakeTpm2b(Tpm2b(data) + rest).value.1 == rest
  {
    hide BigEndian, FromBigEndian;
    if |data| < 0x1_0000 {
      TakeWritten(data, rest);
    } else {
      var s := Tpm2b(data) + rest;
      assert s[..2] == BigEndian(|data|, 2);
      Capacities();
      FromBigEndianBound(s[..2]);
    }
  }

  /** A load command carries its parts to the TPM exactly when neither is longer than a 16-bit length can say. */
  lemma LoadReadsBack(parent: u32, private: seq<byte>, public: seq<byte>)
    ensures var buf := LoadRequest(parent, private, public);
      |buf| >= HEADER
      && (TakenLoad(buf[HEADER..]) == Some((parent, private, public)) <==> |private| < 0x1_0000 && |public| < 0x1_0000)
  {
    hide BigEndian, FromBigEndian, TakeTpm2b, Tpm2b, PasswordSession;
    Capacities();
    BigEndianRoundTrip(parent, 4);
    BigEndianRoundTrip(9, 4);
    var parts := Tpm2b(private) + Tpm2b(public);
    var p := LoadRequest(parent, private, public)[HEADER..];
    assert p == BigEndian(parent, 4) + (BigEndian(9, 4) + PasswordSession()) + Tpm2b(private) + Tpm2b(public);
    assert p[..4] == BigEndian(parent, 4) && p[4..8] == BigEndian(9, 4) && p[8..][9..] == parts;
    TakesPart(private, Tpm2b(public));
    TakesPart(public, []);
    assert Tpm2b(public) + [] == Tpm2b(public);
  }

  // ---------- PCR selections ----------

  const PCRS: nat := 24

  function Pow2(k: nat): (p: nat)
    ensures p >= 1
  {
    if k == 0 then 1 else 2 * Pow2(k - 1)
  }

  function ShiftRight(n: nat, k: nat): nat { Quotient(n, Pow2(k)) }

  predicate Bit(n: nat, k: nat) { ShiftRight(n, k) % 2 == 1 }

  /** The PCRs of a mask from `i` on, ascending; those past 23 do not count. */
  function IndicesFrom(mask: nat, i: nat): (r: seq<nat>)
    requires i <= PCRS
    ensures forall k :: 0 <= k < |r| ==> i <= r[k] < PCRS
    ensures |r| <= PCRS - i
    decreases PCRS - i
  {
    if i == PCRS then [] else (if Bit(mask, i) then [i] else []) + IndicesFrom(mask, i + 1)
  }

  function Indices(mask: nat): seq<nat> { IndicesFrom(mask, 0) }

  /** The PCRs of a mask are the bits it has among the lowest 24, ascending. */
  lemma {:induction false} IndicesMean(mask: nat, i: nat)
    requires i <= 24
    ensures forall k :: k in IndicesFrom(mask, i) <==> i <= k < 24 && mask / Pow2(k) % 2 == 1
    ensures forall j, k :: 0 <= j < k < |IndicesFrom(mask, i)| ==> IndicesFrom(mask, i)[j] < IndicesFrom(mask, i)[k]
    decreases 24 - i
  {
    hide Bit, Pow2, IndicesFrom;
    IndicesStep(mask, i);
    if i < 24 {
      IndicesMean(mask, i + 1);
      BitMeans(mask, i);
    }
  }

  lemma BitMeans(n: nat, k: nat)
    ensures Bit(n, k) <==> n / Pow2(k) % 2 == 1
  {
    hide Pow2;
  }

  method PcrIndices(mask: nat) returns (indices: seq<nat>)
    ensures indices == Indices(mask)
  {
    hide Bit, IndicesFrom;
    indices := [];
    for i := 0 to PCRS
      invariant indices + IndicesFrom(mask, i) == Indices(mask)
    {
      IndicesStep(mask, i);
      assert indices + ([i] + IndicesFrom(mask, i + 1)) == indices + [i] + IndicesFrom(mask, i + 1);
      if Bit(mask, i) {
        indices := indices + [i];
      }
    }
    IndicesStep(mask, PCRS);
    assert indices + [] == indices;
  }

  lemma IndicesStep(mask: nat, i: nat)
    requires i <= PCRS
    ensures IndicesFrom(mask, i) == if i == PCRS then [] else if Bit(mask, i) then [i] + IndicesFrom(mask, i + 1) else IndicesFrom(mask, i + 1)
  {
    hide Bit;
  }

  /** A selection of one bank, three bytes of bits; or an empty list for no mask at all. */
  function BuildPcrSelection(mask: nat, bank: nat): seq<byte>
  {
    if mask == 0 then BigEndian(0, 4)
    else BigEndian(1, 4) + BigEndian(bank, 2) + [3] + [mask % 256, mask / 256 % 256, mask / 65536 % 256]
  }

  /** The bytes of a selection: how many, the bank, and three bytes of which the lowest bits are PCR 0, 8 and 16. */
  lemma SelectionBytes(mask: nat, bank: nat)
    ensures BuildPcrSelection(mask, bank)
         == if mask == 0 then [0, 0, 0, 0]
            else [0, 0, 0, 1, bank / 0x100 % 0x100, bank % 0x100, 3, mask % 0x100, mask / 0x100 % 0x100, mask / 0x1_0000 % 0x100]
  {
    hide BigEndian;
    BigEndianBytes(0);
    BigEndianBytes(1);
    BigEndianBytes(bank);
  }

  /** The bits of a selection's bytes as a TPM reads them, from PCR `i` on. */
  function SelectedFrom(bits: seq<byte>, i: nat): seq<nat>
    requires i <= 8 * |bits|
    decreases 8 * |bits| - i
  {
    if i == 8 * |bits| then [] else (if Bit(bits[i / 8], i % 8) then [i] else []) + SelectedFrom(bits, i + 1)
  }

  /** The bank and PCRs that a TPM takes from a list of at most one selection. */
  function SelectedPcrs(selection: seq<byte>): Option<(nat, seq<nat>)>
  {
    if |selection| < 4 then None
    else if FromBigEndian(selection[..4]) == 0 then Some((0, []))
    else if FromBigEndian(selection[..4]) != 1 || |selection| < 7 || |selection| != 7 + selection[6] as int then None
    else Some((FromBigEndian(selection[4..6]), SelectedFrom(selection[7..], 0)))
  }

  lemma BitOfHalf(n: nat, k: nat)
    requires k > 0
    ensures Bit(n, k) <==> Bit(n / 2, k - 1)
  {
    DivideTwice(n, 2, Pow2(k - 1));
  }

  lemma HalfOfRest(n: nat, p: nat)
    requires p > 0
    ensures n % (2 * p) / 2 == n / 2 % p
  {
    var q, r := n / (2 * p), n % (2 * p);
    assert n == 2 * p * q + r;
    assert n / 2 == p * q + r / 2 by {
      assert 2 * p * q == 2 * (p * q);
    }
    QuotientUnique(n / 2, p, q, r / 2);
  }

  /** The low `width` bits of a number. */
  lemma {:induction false} LowBits(n: nat, width: nat, k: nat)
    requires k < width
    ensures Bit(n % Pow2(width), k) <==> Bit(n, k)
  {
    hide Bit;
    HalfOfRest(n, Pow2(width - 1));
    if k > 0 {
      BitOfHalf(n, k);
      BitOfHalf(n % Pow2(width), k);
      LowBits(n / 2, width - 1, k - 1);
    } else {
      LowestBit(n, Pow2(width - 1));
    }
  }

  lemma LowestBit(n: nat, p: nat)
    requires p > 0
    ensures Bit(n % (2 * p), 0) <==> Bit(n, 0)
  {
    var q := n / (2 * p);
    assert n == 2 * (p * q) + n % (2 * p);
    assert Pow2(0) == 1;
  }

  lemma BitOfByte(x: nat, k: nat)
    requires k < 8
    ensures Bit(x % 256, k) <==> Bit(x, k)
  {
    hide Bit;
    PowersOfBytes();
    LowBits(x, 8, k);
  }

  lemma BitShifted(n: nat, k: nat, shift: nat)
    ensures Bit(ShiftRight(n, shift), k) <==> Bit(n, k + shift)
  {
    Pow2Adds(k, shift);
    DivideTwice(n, Pow2(shift), Pow2(k));
  }

  lemma {:induction false} Pow2Adds(j: nat, k: nat)
    ensures Pow2(j + k) == Pow2(k) * Pow2(j)
  {
    if j > 0 {
      Pow2Adds(j - 1, k);
      assert 2 * (Pow2(k) * Pow2(j - 1)) == Pow2(k) * (2 * Pow2(j - 1));
    }
  }

  lemma SelectionBit(mask: nat, i: nat)
    requires i < PCRS
    ensures Bit([mask % 256, mask / 256 % 256, mask / 65536 % 256][i / 8], i % 8) <==> Bit(mask, i)
  {
    assert Pow2(0) == 1;
    PowersOfBytes();
    hide Bit, Pow2;
    if i < 8 {
      BitOfByte(mask, i);
    } else if i < 16 {
      BitOfByte(mask / 256, i - 8);
      BitShifted(mask, i - 8, 8);
    } else {
      BitOfByte(mask / 65536, i - 16);
      BitShifted(mask, i - 16, 16);
    }
  }

  lemma PowersOfBytes()
    ensures Pow2(8) == 256 && Pow2(16) == 65536
  {
    assert Pow2(4) == 16;
    assert Pow2(12) == 4096;
  }

  lemma {:induction false} SelectedIsIndices(mask: nat, i: nat)
    requires i <= PCRS
    ensures SelectedFrom([mask % 256, mask / 256 % 256, mask / 65536 % 256], i) == IndicesFrom(mask, i)
    decreases PCRS - i
  {
    hide Bit;
    if i < PCRS {
      SelectionBit(mask, i);
      SelectedIsIndices(mask, i + 1);
    }
  }

  lemma {:induction false} NoBits(i: nat)
    requires i <= PCRS
    ensures IndicesFrom(0, i) == []
    decreases PCRS - i
  {
    if i < PCRS {
      NoBits(i + 1);
    }
  }

  /** A TPM takes from a written selection the PCRs of the mask, and its bank. */
  lemma SelectionMeans(mask: nat, bank: nat)
    requires bank < 0x1_0000
    ensures var taken := SelectedPcrs(BuildPcrSelection(mask, bank));
      taken.Some? && taken.value.1 == Indices(mask) && (mask != 0 ==> taken.value.0 == bank)
  {
    hide SelectedFrom, IndicesFrom, BigEndian, FromBigEndian;
    Capacities();
    BigEndianRoundTrip(0, 4);
    BigEndianRoundTrip(1, 4);
    BigEndianRoundTrip(bank, 2);
    var s := BuildPcrSelection(mask, bank);
    NoBits(0);
    if mask == 0 {
      assert s[..4] == s;
    } else {
      assert s[..4] == BigEndian(1, 4) && s[4..6] == BigEndian(bank, 2) && s[6] == 3;
      assert s[7..] == [mask % 256, mask / 256 % 256, mask / 65536 % 256];
      SelectedIsIndices(mask, 0);
    }
  }

  // ---------- the response to TPM2_PCR_Read ----------

  function Tpm2bs(digests: seq<seq<byte>>): seq<byte>
  {
    if digests == [] then [] else Tpm2b(digests[0]) + Tpm2bs(digests[1..])
  }

  /** Update counter, selection, number of digests, digests. */
  function PcrReadBody(counter: nat, selection: seq<byte>, digests: seq<seq<byte>>): seq<byte>
  {
    BigEndian(counter, 4) + selection + BigEndian(|digests|, 4) + Tpm2bs(digests)
  }

  type PcrValue = (nat, seq<byte>)

  /** Indices with digests, as far as both go. */
  function Paired(indices: seq<nat>, digests: seq<seq<byte>>): seq<PcrValue>
  {
    if indices == [] || digests == [] then [] else [(indices[0], digests[0])] + Paired(indices[1..], digests[1..])
  }

  /** What the reader makes of a response. */
  function ParsedPcrRead(resp: seq<byte>, mask: nat): Option<seq<PcrValue>>
  {
    match ResponseBody(resp)
    case None => None
    case Some(body) =>
      if |body| < 8 then None
      else match SkipSelections(body[8..], FromBigEndian(body[4..8]))
        case None => None
        case Some(rest) =>
          if |rest| < 4 then None
          else match TakeTpm2bs(rest[4..], FromBigEndian(rest[..4]))
            case None => None
            case Some(digests) => Some(Paired(Indices(mask), digests))
  }

  method ParsePcrRead(resp: seq<byte>, mask: nat) returns (r: Option<seq<PcrValue>>)
    ensures r == ParsedPcrRead(resp, mask)
  {
    hide FromBigEndian, TakeTpm2bs, SkipSelections, Indices, Paired;
    var body := ResponseBody(resp);
    if body.None? {
      return None;
    }
    var parser := new RespParser(body.value);
    var counter := parser.GetNumber(4);
    if counter.None? {
      return None;
    }
    var selCount := parser.GetNumber(4);
    if selCount.None? {
      return None;
    }
    assert body.value[4..][..4] == body.value[4..8] && body.value[4..][4..] == body.value[8..];
    var skipped := SkipInParser(parser, selCount.value);
    if !skipped {
      return None;
    }
    var digestCount := parser.GetNumber(4);
    if digestCount.None? {
      return None;
    }
    var indices := PcrIndices(mask);
    r := PairInParser(parser, digestCount.value, indices);
  }

  method SkipInParser(parser: RespParser, count: nat) returns (ok: bool)
    requires parser.Valid()
    modifies parser`pos
    ensures parser.Valid()
    ensures match SkipSelections(old(parser.Rest()), count) case None => !ok case Some(rest) => ok && parser.Rest() == rest
  {
    ghost var all := SkipSelections(parser.Rest(), count);
    for k := 0 to count
      invariant parser.Valid() && SkipSelections(parser.Rest(), count - k) == all
    {
      ghost var s := parser.Rest();
      var hash := parser.GetNumber(2);
      if hash.None? {
        return false;
      }
      var size := parser.GetBytes(1);
      if size.None? {
        return false;
      }
      assert size.value[0] == s[2] && s[2..][1..] == s[3..];
      var select := parser.GetBytes(size.value[0]);
      if select.None? {
        return false;
      }
    }
    return true;
  }

  method PairInParser(parser: RespParser, count: nat, indices: seq<nat>) returns (r: Option<seq<PcrValue>>)
    requires parser.Valid()
    modifies parser`pos
    ensures r == match TakeTpm2bs(old(parser.Rest()), count) case None => None case Some(digests) => Some(Paired(indices, digests))
  {
    hide TakeTpm2b;
    ghost var start := parser.Rest();
    ghost var taken: seq<seq<byte>> := [];
    var pairs: seq<PcrValue> := [];
    assert forall more: seq<seq<byte>> :: taken + more == more;
    for i := 0 to count
      invariant parser.Valid() && |taken| == i
      invariant pairs == Paired(indices, taken)
      invariant TakeTpm2bs(start, count)
             == match TakeTpm2bs(parser.Rest(), count - i) case None => None case Some(more) => Some(taken + more)
    {
      var digest := parser.GetTpm2b();
      if digest.None? {
        return None;
      }
      PairedSnoc(indices, taken, digest.value);
      assert forall more: seq<seq<byte>> :: taken + ([digest.value] + more) == taken + [digest.value] + more;
      if i < |indices| {
        pairs := pairs + [(indices[i], digest.value)];
      }
      taken := taken + [digest.value];
    }
    assert taken + [] == taken;
    r := Some(pairs);
  }

  lemma {:induction false} PairedSnoc(indices: seq<nat>, digests: seq<seq<byte>>, d: seq<byte>)
    ensures Paired(indices, digests + [d])
         == Paired(indices, digests) + (if |digests| < |indices| then [(indices[|digests|], d)] else [])
  {
    if indices != [] {
      if digests == [] {
        assert (digests + [d])[1..] == [];
      } else {
        assert (digests + [d])[1..] == digests[1..] + [d];
        PairedSnoc(indices[1..], digests[1..], d);
      }
    }
  }

  // ---------- reading what a TPM writes ----------

  lemma BodyOfResponse(tag: nat, body: seq<byte>)
    requires HEADER + |body| < 0x1_0000_0000
    ensures ResponseBody(Response(tag, body)) == Some(body)
  {
    hide BigEndian, FromBigEndian;
    var buf := Response(tag, body);
    Capacities();
    BigEndianRoundTrip(HEADER + |body|, 4);
    BigEndianRoundTrip(RC_SUCCESS, 4);
    assert buf[2..6] == BigEndian(HEADER + |body|, 4) && buf[6..10] == BigEndian(RC_SUCCESS, 4);
    assert buf[HEADER..HEADER + |body|] == body;
  }

  lemma TakeWritten(data: seq<byte>, rest: seq<byte>)
    requires |data| < 0x1_0000
    ensures TakeTpm2b(Tpm2b(data) + rest) == Some((data, rest))
  {
    hide BigEndian, FromBigEndian;
    var s := Tpm2b(data) + rest;
    Capacities();
    BigEndianRoundTrip(|data|, 2);
    assert s[..2] == BigEndian(|data|, 2) && s[2..] == data + rest;
  }

  lemma {:induction false} TakeAllWritten(digests: seq<seq<byte>>)
    requires forall k :: 0 <= k < |digests| ==> |digests[k]| < 0x1_0000
    ensures TakeTpm2bs(Tpm2bs(digests), |digests|) == Some(digests)
  {
    hide TakeTpm2b, Tpm2b;
    if digests != [] {
      TakeWritten(digests[0], Tpm2bs(digests[1..]));
      TakeAllWritten(digests[1..]);
      assert digests == [digests[0]] + digests[1..];
    }
  }

  /** The selection list that a TPM echoes is skipped exactly. */
  lemma SkipEchoed(mask: nat, bank: nat, rest: seq<byte>)
    ensures var s := BuildPcrSelection(mask, bank);
      && |s| >= 4 && |s| <= 10 && SkipSelections(s[4..] + rest, FromBigEndian(s[..4])) == Some(rest)
  {
    hide BigEndian, FromBigEndian;
    Capacities();
    BigEndianRoundTrip(0, 4);
    BigEndianRoundTrip(1, 4);
    var s := BuildPcrSelection(mask, bank);
    if mask == 0 {
      assert s[..4] == s && s[4..] + rest == rest;
    } else {
      assert s[..4] == BigEndian(1, 4);
      var t := s[4..] + rest;
      assert t[2] == 3 && t[3..][3..] == rest;
      assert SkipSelections(t[3..][3..], 0) == Some(rest);
    }
  }

  lemma {:induction false} WrittenSize(digests: seq<seq<byte>>)
    requires forall k :: 0 <= k < |digests| ==> |digests[k]| < 0x1_0000
    ensures |Tpm2bs(digests)| <= 0x1_0001 * |digests|
  {
    if digests != [] {
      WrittenSize(digests[1..]);
    }
  }

  /** A TPM's answer to TPM2_PCR_Read is read as the PCRs of the mask with its digests. */
  lemma PcrReadRoundTrip(tag: nat, counter: nat, mask: nat, bank: nat, digests: seq<seq<byte>>)
    requires |digests| <= 8 && forall k :: 0 <= k < |digests| ==> |digests[k]| < 0x1_0000
    ensures ParsedPcrRead(Response(tag, PcrReadBody(counter, BuildPcrSelection(mask, bank), digests)), mask)
         == Some(Paired(Indices(mask), digests))
  {
    hide BigEndian, FromBigEndian, BuildPcrSelection, SkipSelections, TakeTpm2bs, Tpm2bs, Paired, IndicesFrom, Response,
      ResponseBody;
    var selection := BuildPcrSelection(mask, bank);
    var tail := BigEndian(|digests|, 4) + Tpm2bs(digests);
    var body := PcrReadBody(counter, selection, digests);
    WrittenSize(digests);
    SkipEchoed(mask, bank, tail);
    BodyOfResponse(tag, body);
    assert body[4..8] == selection[..4] && body[8..] == selection[4..] + tail;
    Capacities();
    BigEndianRoundTrip(|digests|, 4);
    assert tail[..4] == BigEndian(|digests|, 4) && tail[4..] == Tpm2bs(digests);
    TakeAllWritten(digests);
  }
}
