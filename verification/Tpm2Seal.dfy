/**
 Sealing a secret to PCR values and unsealing it again, against an abstract TPM whose commands may be
 rejected, or carried out with the answer lost.  Hash and object encryption are parameters.
 */
module Tpm2Seal {
  import opened Bytes
  import opened Text
  import opened Tpm2Blob
  import opened Tpm2Wire

  const CC_POLICY_PCR: nat := 0x17F
  const ALG_RSA: nat := 0x0001
  const ALG_ECC: nat := 0x0023

  /** The most digests TPM2_PCR_Read returns at once. */
  const MAX_DIGESTS: nat := 8

  /** The values of the PCRs by bank. */
  type Banks = map<nat, seq<seq<byte>>>

  /**
   The hash, the size of the digests of each bank, and how a TPM wraps a secret and its policy under
   the storage key of an algorithm into a private and a public part.
   */
  datatype Crypto = Crypto(
    hash: seq<byte> -> seq<byte>,
    digestSize: nat -> nat,
    wrap: (nat, seq<byte>, seq<byte>) -> (seq<byte>, seq<byte>),
    unwrap: (nat, seq<byte>, seq<byte>) -> Option<(seq<byte>, seq<byte>)>)
  {
    /** What a key wrapped it unwraps. */
    ghost predicate Lawful()
    {
      forall alg: nat, secret: seq<byte>, policy: seq<byte> ::
        var w := wrap(alg, secret, policy); unwrap(alg, w.0, w.1) == Some((secret, policy))
    }

    /** Every bank has all its PCRs, with digests of its own size. */
    ghost predicate ProperBanks(pcrs: Banks)
    {
      forall b :: b in pcrs ==>
        && 0 < digestSize(b) < 0x1_0000 && |pcrs[b]| == PCRS
        && forall k :: 0 <= k < PCRS ==> |pcrs[b][k]| == digestSize(b)
    }
  }

  // ---------- PCR values and policies ----------

  function ValuesAt(values: seq<seq<byte>>, indices: seq<nat>): (r: seq<seq<byte>>)
    requires |values| == PCRS && forall k :: 0 <= k < |indices| ==> indices[k] < PCRS
    ensures |r| == |indices|
  {
    seq(|indices|, k requires 0 <= k < |indices| => values[indices[k]])
  }

  /** The values of the PCRs of a mask; none where the bank is not allocated. */
  function Selected(pcrs: Banks, mask: nat, bank: nat): (r: seq<seq<byte>>)
    ensures |r| <= |Indices(mask)|
  {
    if bank in pcrs && |pcrs[bank]| == PCRS then ValuesAt(pcrs[bank], Indices(mask)) else []
  }

  /** What TPM2_PCR_Read reports of the values selected. */
  function FirstDigests(values: seq<seq<byte>>): seq<seq<byte>>
  {
    if |values| <= MAX_DIGESTS then values else values[..MAX_DIGESTS]
  }

  /** The values that sealing gets to see: the device's report when it answers, else the kernel's files. */
  function Shown(answered: bool, pcrs: Banks, mask: nat, bank: nat): (r: seq<seq<byte>>)
    ensures |r| <= |Indices(mask)|
  {
    if answered then FirstDigests(Selected(pcrs, mask, bank)) else Selected(pcrs, mask, bank)
  }

  function ShownPairs(answered: bool, pcrs: Banks, mask: nat, bank: nat): seq<PcrValue>
  {
    Paired(Indices(mask), Shown(answered, pcrs, mask, bank))
  }

  function Concat(values: seq<seq<byte>>): seq<byte> { if values == [] then [] else values[0] + Concat(values[1..]) }

  function Zeros(n: nat): seq<byte> { seq(n, _ => 0) }

  /** One PolicyPCR on top of a policy digest. */
  function ExtendPolicy(hash: seq<byte> -> seq<byte>, digest: seq<byte>, selection: seq<byte>, values: seq<seq<byte>>): seq<byte>
  {
    hash(digest + BigEndian(CC_POLICY_PCR, 4) + selection + hash(Concat(values)))
  }

  /** The policy digest that sealing computes in software. */
  function PolicyDigest(hash: seq<byte> -> seq<byte>, mask: nat, bank: nat, values: seq<PcrValue>): seq<byte>
  {
    var pcrDigest := hash(ConcatValues(values));
    hash(Zeros(32) + BigEndian(CC_POLICY_PCR, 4) + BuildPcrSelection(mask, bank) + pcrDigest)
  }

  function ConcatValues(values: seq<PcrValue>): seq<byte>
  {
    if values == [] then [] else values[0].1 + ConcatValues(values[1..])
  }

  /** The digest of a fresh session after PolicyPCR. */
  function SessionPolicy(hash: seq<byte> -> seq<byte>, pcrs: Banks, mask: nat, bank: nat): seq<byte>
  {
    ExtendPolicy(hash, Zeros(32), BuildPcrSelection(mask, bank), Selected(pcrs, mask, bank))
  }

  lemma {:induction false} ConcatPaired(indices: seq<nat>, values: seq<seq<byte>>)
    requires |values| <= |indices|
    ensures ConcatValues(Paired(indices, values)) == Concat(values)
  {
    if values != [] {
      ConcatPaired(indices[1..], values[1..]);
      assert Paired(indices, values)[1..] == Paired(indices[1..], values[1..]);
    }
  }

  /** With at most eight PCRs, or read from the kernel's files, software and session policy are the same. */
  lemma PoliciesAgree(hash: seq<byte> -> seq<byte>, answered: bool, pcrs: Banks, mask: nat, bank: nat)
    requires |Indices(mask)| <= 8 || !answered
    ensures PolicyDigest(hash, mask, bank, ShownPairs(answered, pcrs, mask, bank)) == SessionPolicy(hash, pcrs, mask, bank)
  {
    hide BuildPcrSelection, BigEndian, IndicesFrom, Zeros;
    ConcatPaired(Indices(mask), Selected(pcrs, mask, bank));
  }

  // ---------- what a policy binds ----------

  predicate Collide(hash: seq<byte> -> seq<byte>, a: seq<byte>, b: seq<byte>) { a != b && hash(a) == hash(b) }

  /** What is hashed to the policy of the given PCR values. */
  function PolicyText(hash: seq<byte> -> seq<byte>, mask: nat, bank: nat, values: seq<seq<byte>>): seq<byte>
  {
    Zeros(32) + BigEndian(CC_POLICY_PCR, 4) + BuildPcrSelection(mask, bank) + hash(Concat(values))
  }

  /** Two lists of PCR values whose digests, or the policy texts made of those, collide. */
  predicate PolicyCollision(hash: seq<byte> -> seq<byte>, mask: nat, bank: nat, a: seq<seq<byte>>, b: seq<seq<byte>>)
  {
    || Collide(hash, Concat(a), Concat(b))
    || Collide(hash, PolicyText(hash, mask, bank, a), PolicyText(hash, mask, bank, b))
  }

  /** The bytes of a policy text: a zero policy, the code of PolicyPCR, the selection, and the digest of the values. */
  lemma PolicyTextBytes(hash: seq<byte> -> seq<byte>, mask: nat, bank: nat, values: seq<seq<byte>>)
    requires |values| <= |Indices(mask)|
    ensures PolicyText(hash, mask, bank, values)
         == Zeros(32) + [0, 0, 0x01, 0x7F] + BuildPcrSelection(mask, bank) + hash(Concat(values))
    ensures |Zeros(32)| == 32 && forall k :: 0 <= k < 32 ==> Zeros(32)[k] == 0
    ensures PolicyDigest(hash, mask, bank, Paired(Indices(mask), values)) == hash(PolicyText(hash, mask, bank, values))
  {
    hide BigEndian, BuildPcrSelection, IndicesFrom, Paired, Concat, ConcatValues, Zeros, Four;
    PolicyConstants();
    ConcatPaired(Indices(mask), values);
  }

  lemma PolicyConstants()
    ensures |Zeros(32)| == 32 && forall k :: 0 <= k < 32 ==> Zeros(32)[k] == 0
    ensures BigEndian(CC_POLICY_PCR, 4) == [0, 0, 0x01, 0x7F]
  {
    hide BigEndian;
    BigEndianBytes(CC_POLICY_PCR);
  }

  predicate OfSize(values: seq<seq<byte>>, size: nat) { forall k :: 0 <= k < |values| ==> |values[k]| == size }

  /** Values of one size can be told from their concatenation. */
  lemma {:induction false} ConcatInjective(a: seq<seq<byte>>, b: seq<seq<byte>>, size: nat)
    requires size > 0 && OfSize(a, size) && OfSize(b, size)
    ensures Concat(a) == Concat(b) <==> a == b
  {
    if a != [] && b != [] {
      ConcatInjective(a[1..], b[1..], size);
      assert a == [a[0]] + a[1..] && b == [b[0]] + b[1..];
      assert Concat(a)[..size] == a[0] && Concat(a)[size..] == Concat(a[1..]);
      assert Concat(b)[..size] == b[0] && Concat(b)[size..] == Concat(b[1..]);
    }
  }

  /** Two lists of values have one policy only if they are the same or a collision. */
  lemma PolicyTextsBind(hash: seq<byte> -> seq<byte>, mask: nat, bank: nat, a: seq<seq<byte>>, b: seq<seq<byte>>, size: nat)
    requires size > 0 && OfSize(a, size) && OfSize(b, size)
    ensures hash(PolicyText(hash, mask, bank, a)) == hash(PolicyText(hash, mask, bank, b))
       <==> a == b || PolicyCollision(hash, mask, bank, a, b)
  {
    hide BuildPcrSelection, BigEndian, Zeros, Concat;
    ConcatInjective(a, b, size);
    var front := Zeros(32) + BigEndian(CC_POLICY_PCR, 4) + BuildPcrSelection(mask, bank);
    var ta, tb := PolicyText(hash, mask, bank, a), PolicyText(hash, mask, bank, b);
    if ta == tb {
      assert ta[|front|..] == hash(Concat(a)) && tb[|front|..] == hash(Concat(b));
    }
  }

  lemma SelectedSize(c: Crypto, answered: bool, pcrs: Banks, mask: nat, bank: nat)
    requires c.ProperBanks(pcrs)
    ensures OfSize(Shown(answered, pcrs, mask, bank), c.digestSize(bank))
    ensures bank in pcrs ==> c.digestSize(bank) > 0 && |Selected(pcrs, mask, bank)| == |Indices(mask)|
    ensures bank !in pcrs ==> Selected(pcrs, mask, bank) == []
  {
    hide IndicesFrom;
  }

  /**
   Exactly when sealing to the values seen before gives the session policy of the values after: when
   those are the same values, or the two lists are a collision.  They are never the same when the
   device reported only eight of more.
   */
  lemma PoliciesAgreeExactly(c: Crypto, answered: bool, before: Banks, after: Banks, mask: nat, bank: nat)
    requires c.ProperBanks(before) && c.ProperBanks(after)
    ensures var seen, now := Shown(answered, before, mask, bank), Selected(after, mask, bank);
      && (PolicyDigest(c.hash, mask, bank, ShownPairs(answered, before, mask, bank)) == SessionPolicy(c.hash, after, mask, bank)
          <==> seen == now || PolicyCollision(c.hash, mask, bank, seen, now))
      && (answered && |Indices(mask)| > 8 && bank in after ==> seen != now)
  {
    hide BuildPcrSelection, BigEndian, IndicesFrom, Zeros, Paired, Concat, ConcatValues, Selected, PolicyCollision;
    var seen, now := Shown(answered, before, mask, bank), Selected(after, mask, bank);
    ConcatPaired(Indices(mask), seen);
    SelectedSize(c, answered, before, mask, bank);
    SelectedSize(c, false, before, mask, bank);
    SelectedSize(c, false, after, mask, bank);
    if bank in before || bank in after {
      PolicyTextsBind(c.hash, mask, bank, seen, now, c.digestSize(bank));
    }
  }

  /** Two PCR states have one policy exactly when the selected values are the same or a collision. */
  lemma PolicyBindsValues(c: Crypto, before: Banks, after: Banks, mask: nat, bank: nat)
    requires c.ProperBanks(before) && c.ProperBanks(after)
    ensures var was, now := Selected(before, mask, bank), Selected(after, mask, bank);
      SessionPolicy(c.hash, before, mask, bank) == SessionPolicy(c.hash, after, mask, bank)
      <==> was == now || PolicyCollision(c.hash, mask, bank, was, now)
  {
    hide BuildPcrSelection, BigEndian, IndicesFrom, Zeros, Selected, PolicyCollision, PolicyDigest, SessionPolicy;
    PoliciesAgree(c.hash, false, before, mask, bank);
    PoliciesAgreeExactly(c, false, before, after, mask, bank);
  }

  // ---------- the TPM ----------

  /** A command is answered, or rejected without effect, or carried out with its answer lost. */
  datatype Outcome = Answered | Rejected | Lost

  datatype Object = StorageKey(alg: nat) | Sealed(secret: seq<byte>, policy: seq<byte>)

  class Tpm {
    const crypto: Crypto
    /** What becomes of command number k, and whether it is refused should it be a flush. */
    const fate: nat -> Outcome
    const refusesFlush: nat -> bool

    var clock: nat
    var pcrs: Banks
    var updates: nat
    var objects: map<nat, Object>
    var sessions: map<nat, seq<byte>>
    var nextHandle: nat
    /** Live handles that nobody can flush any more: their answer was lost, or their flush refused. */
    ghost var leaked: set<nat>

    constructor (crypto: Crypto, fate: nat -> Outcome, refusesFlush: nat -> bool, pcrs: Banks)
      requires crypto.ProperBanks(pcrs)
      ensures Valid() && Live() == {} && leaked == {} && this.pcrs == pcrs && this.crypto == crypto
    {
      this.crypto, this.fate, this.refusesFlush, this.pcrs := crypto, fate, refusesFlush, pcrs;
      clock, updates, objects, sessions, nextHandle, leaked := 0, 0, map[], map[], 0, {};
    }

    ghost predicate Valid()
      reads this
    {
      && objects.Keys !! sessions.Keys
      && (forall h :: h in objects || h in sessions ==> h < nextHandle)
      && leaked <= objects.Keys + sessions.Keys
      && crypto.ProperBanks(pcrs)
    }

    function Live(): set<nat>
      reads this
    {
      objects.Keys + sessions.Keys
    }

    /** The live handles that somebody still answers for. */
    ghost function Owned(): set<nat>
      reads this
    {
      Live() - leaked
    }

    ghost predicate AllAnswered(from: nat, to: nat) { forall k :: from <= k < to ==> fate(k) == Answered }

    /** No answer is lost and no flush refused. */
    ghost predicate NothingLost(from: nat, to: nat) { forall k :: from <= k < to ==> fate(k) != Lost && !refusesFlush(k) }

    /** What every command keeps: the PCRs, and every object and session but the one it is about. */
    twostate predicate Keeps(touched: set<nat>)
      reads this
    {
      && pcrs == old(pcrs) && clock == old(clock) + 1 && old(leaked) <= leaked
      && (forall h :: h in old(objects) && h !in touched ==> h in objects && objects[h] == old(objects)[h])
      && (forall h :: h in old(sessions) && h !in touched ==> h in sessions && sessions[h] == old(sessions)[h])
      && (NothingLost(old(clock), clock) ==> leaked == old(leaked))
    }

    /** What a whole protocol keeps: the PCRs and the handles owned; nothing leaks unless something is lost. */
    twostate predicate Conserves()
      reads this
    {
      && pcrs == old(pcrs) && old(clock) <= clock
      && Owned() == old(Owned()) && old(leaked) <= leaked
      && (NothingLost(old(clock), clock) ==> leaked == old(leaked))
    }

    method CreatePrimary(alg: nat) returns (r: Option<nat>)
      requires Valid()
      modifies this
      ensures Valid() && Keeps({})
      ensures r.None? ==> Owned() == old(Owned())
      ensures r.Some? ==> r.value !in old(Live()) && Owned() == old(Owned()) + {r.value}
      ensures r.Some? ==> r.value in objects && objects[r.value] == StorageKey(alg)
      ensures fate(old(clock)) == Answered ==> r.Some?
    {
      r := NewObject(StorageKey(alg));
    }

    /** The digests that TPM2_PCR_Read reports: the first eight of the selection, none of a bank it lacks. */
    function Reported(selection: seq<byte>): Option<seq<seq<byte>>>
      reads this
    {
      match SelectedPcrs(selection)
      case None => None
      case Some((bank, indices)) =>
        if bank !in pcrs || |pcrs[bank]| != PCRS || exists k :: 0 <= k < |indices| && indices[k] >= PCRS then Some([])
        else
          Some(FirstDigests(ValuesAt(pcrs[bank], indices)))
    }

    /** The header of TPM2_PCR_Read, with the size of the command. */
    predicate IsPcrRead(command: seq<byte>)
    {
      |command| >= 10 && command[..10] == [0x80, 0x01] + Four(|command|) + [0, 0, 0x01, 0x7E]
    }

    /** Answers TPM2_PCR_Read with counter, selection and digests. */
    method PcrRead(command: seq<byte>) returns (r: Option<seq<byte>>)
      requires Valid()
      modifies this
      ensures Valid() && Keeps({}) && Owned() == old(Owned())
      ensures r.Some? ==> fate(old(clock)) == Answered && IsPcrRead(command)
      ensures IsPcrRead(command) ==>
        var selection := command[10..]; var digests := Reported(selection);
        && (r.Some? ==> digests.Some? && r.value == Response(TAG_NO_SESSIONS, PcrReadBody(updates, selection, digests.value)))
        && (fate(old(clock)) == Answered && digests.Some? ==> r.Some?)
    {
      hide Reported, Response, PcrReadBody, Four;
      var outcome := fate(clock);
      clock := clock + 1;
      if outcome != Answered || !IsPcrRead(command) {
        return None;
      }
      var digests := Reported(command[10..]);
      if digests.None? {
        return None;
      }
      r := Some(Response(TAG_NO_SESSIONS, PcrReadBody(updates, command[10..], digests.value)));
    }

    method NewObject(made: Object) returns (r: Option<nat>)
      requires Valid()
      modifies this
      ensures Valid() && Keeps({})
      ensures r.None? ==> Owned() == old(Owned())
      ensures r.Some? ==> r.value !in old(Live()) && Owned() == old(Owned()) + {r.value}
      ensures r.Some? ==> r.value in objects && objects[r.value] == made
      ensures fate(old(clock)) == Answered ==> r.Some?
    {
      var outcome := fate(clock);
      clock := clock + 1;
      if outcome == Rejected {
        return None;
      }
      var h := nextHandle;
      objects, nextHandle := objects[h := made], h + 1;
      if outcome == Lost {
        leaked := leaked + {h};
        return None;
      }
      r := Some(h);
    }

    method Create(parent: nat, secret: seq<byte>, policy: seq<byte>) returns (r: Option<(seq<byte>, seq<byte>)>)
      requires Valid() && parent in objects && objects[parent].StorageKey?
      modifies this
      ensures Valid() && Keeps({}) && Owned() == old(Owned())
      ensures r.Some? ==> r.value == crypto.wrap(objects[parent].alg, secret, policy)
      ensures fate(old(clock)) == Answered ==> r.Some?
    {
      var outcome := fate(clock);
      clock := clock + 1;
      r := if outcome == Answered then Some(crypto.wrap(objects[parent].alg, secret, policy)) else None;
    }

    method Load(parent: nat, private: seq<byte>, public: seq<byte>) returns (r: Option<nat>)
      requires Valid() && parent in objects && objects[parent].StorageKey?
      modifies this
      ensures Valid() && Keeps({})
      ensures r.None? ==> Owned() == old(Owned())
      ensures r.Some? ==> r.value !in old(Live()) && Owned() == old(Owned()) + {r.value}
      ensures var u := crypto.unwrap(old(objects)[parent].alg, private, public);
        && (r.Some? ==> u.Some? && r.value in objects && objects[r.value] == Sealed(u.value.0, u.value.1))
        && (fate(old(clock)) == Answered && u.Some? ==> r.Some?)
    {
      var u := crypto.unwrap(objects[parent].alg, private, public);
      if u.None? {
        clock := clock + 1;
        return None;
      }
      r := NewObject(Sealed(u.value.0, u.value.1));
    }

    method StartAuthSession() returns (r: Option<nat>)
      requires Valid()
      modifies this
      ensures Valid() && Keeps({})
      ensures r.None? ==> Owned() == old(Owned())
      ensures r.Some? ==> r.value !in old(Live()) && Owned() == old(Owned()) + {r.value}
      ensures r.Some? ==> r.value in sessions && sessions[r.value] == Zeros(32)
      ensures fate(old(clock)) == Answered ==> r.Some?
    {
      var outcome := fate(clock);
      clock := clock + 1;
      if outcome == Rejected {
        return None;
      }
      var h := nextHandle;
      sessions, nextHandle := sessions[h := Zeros(32)], h + 1;
      if outcome == Lost {
        leaked := leaked + {h};
        return None;
      }
      r := Some(h);
    }

    /** The digest after PolicyPCR with the TPM's own values; None where the selection cannot be met. */
    function AfterPolicyPcr(digest: seq<byte>, selection: seq<byte>): Option<seq<byte>>
      reads this
    {
      match SelectedPcrs(selection)
      case None => None
      case Some((bank, indices)) =>
        if indices == [] then Some(ExtendPolicy(crypto.hash, digest, selection, []))
        else if bank !in pcrs || |pcrs[bank]| != PCRS || exists k :: 0 <= k < |indices| && indices[k] >= PCRS then None
        else Some(ExtendPolicy(crypto.hash, digest, selection, ValuesAt(pcrs[bank], indices)))
    }

    method PolicyPcr(session: nat, selection: seq<byte>) returns (ok: bool)
      requires Valid() && session in sessions
      modifies this
      ensures Valid() && Keeps({session}) && Owned() == old(Owned()) && session in sessions
      ensures var after := old(AfterPolicyPcr(sessions[session], selection));
        && (ok ==> after.Some? && sessions[session] == after.value)
        && (fate(old(clock)) == Answered && after.Some? ==> ok)
    {
      var outcome := fate(clock);
      var after := AfterPolicyPcr(sessions[session], selection);
      clock := clock + 1;
      if outcome == Rejected || after.None? {
        return false;
      }
      sessions := sessions[session := after.value];
      ok := outcome == Answered;
    }

    /** Gives the secret only to a session that satisfies the policy. */
    method Unseal(item: nat, session: nat) returns (r: Option<seq<byte>>)
      requires Valid() && item in objects && objects[item].Sealed? && session in sessions
      modifies this
      ensures Valid() && Keeps({}) && Owned() == old(Owned())
      ensures r.Some? ==> r.value == objects[item].secret && sessions[session] == objects[item].policy
      ensures fate(old(clock)) == Answered && sessions[session] == objects[item].policy ==> r.Some?
    {
      var outcome := fate(clock);
      clock := clock + 1;
      r := if outcome == Answered && sessions[session] == objects[item].policy then Some(objects[item].secret) else None;
    }

    /** Flushes, whatever becomes of the answer, unless refused. */
    method FlushContext(h: nat)
      requires Valid() && h in Owned()
      modifies this
      ensures Valid() && Keeps({h}) && Owned() == old(Owned()) - {h}
    {
      var refused := refusesFlush(clock);
      clock := clock + 1;
      if refused {
        leaked := leaked + {h};
      } else {
        objects, sessions := objects - {h}, sessions - {h};
      }
    }
  }

  // ---------- reading PCRs ----------

  const SHA256: nat := 0x000B
  const SHA1: nat := 0x0004
  const SHA384: nat := 0x000C
  const SHA512: nat := 0x000D

  /** The kernel's files for the PCRs of the banks it names; it shows the TPM's values. */
  function SysfsValues(pcrs: Banks, mask: nat, bank: nat): Option<seq<PcrValue>>
  {
    if bank !in {SHA1, SHA256, SHA384, SHA512} then None
    else if Indices(mask) == [] then Some([])
    else if bank in pcrs && |pcrs[bank]| == PCRS then Some(ShownPairs(false, pcrs, mask, bank))
    else None
  }

  /** What the TPM reports of a written selection is what the device values say. */
  lemma ReportedIsDevice(dev: Tpm, mask: nat, bank: nat)
    requires dev.Valid() && bank < 0x1_0000
    ensures var digests := dev.Reported(BuildPcrSelection(mask, bank));
      digests.Some? && |digests.value| <= MAX_DIGESTS
      && (forall k :: 0 <= k < |digests.value| ==> |digests.value[k]| < 0x1_0000)
      && Paired(Indices(mask), digests.value) == ShownPairs(true, dev.pcrs, mask, bank)
  {
    hide BuildPcrSelection, IndicesFrom, SelectedPcrs;
    SelectionMeans(mask, bank);
    if mask == 0 {
      NoBits(0);
      assert Indices(mask) == [];
    }
  }

  lemma PcrReadHeader(dev: Tpm, selection: seq<byte>)
    ensures dev.IsPcrRead(Command(TAG_NO_SESSIONS, CC_PCR_READ, selection))
    ensures Command(TAG_NO_SESSIONS, CC_PCR_READ, selection)[10..] == selection
  {
    hide Command;
    CommandBytes(TAG_NO_SESSIONS, CC_PCR_READ, selection);
  }

  method Tpm2PcrRead(dev: Tpm, mask: u32, bank: u16) returns (r: Option<seq<PcrValue>>)
    requires dev.Valid()
    modifies dev
    ensures dev.Valid() && dev.Keeps({}) && dev.Owned() == old(dev.Owned())
    ensures r.Some? ==> dev.fate(old(dev.clock)) == Answered && r.value == ShownPairs(true, dev.pcrs, mask, bank)
    ensures dev.fate(old(dev.clock)) == Answered ==> r.Some?
  {
    hide BuildPcrSelection, BigEndian, IndicesFrom, Paired, Response, PcrReadBody, ParsedPcrRead, Command, Tpm.IsPcrRead;
    var selection := BuildPcrSelection(mask, bank);
    var cmd := new CmdBuilder(TAG_NO_SESSIONS, CC_PCR_READ);
    cmd.PutBytes(selection);
    cmd.Finalize();
    PcrReadHeader(dev, selection);
    assert [] + selection == selection && cmd.buf[10..] == selection;
    label sent:
    var resp := dev.PcrRead(cmd.buf);
    ReportedIsDevice(dev, mask, bank);
    if resp.None? {
      return None;
    }
    PcrReadRoundTrip(TAG_NO_SESSIONS, dev.updates, mask, bank, dev.Reported(selection).value);
    r := ParsePcrRead(resp.value, mask);
  }

  /**
   Whether values can be had: the device answers for PCRs of a bank it has, or the kernel has files
   of the bank, which it has of SHA-1, SHA-256, SHA-384 and SHA-512.
   */
  predicate Readable(answered: bool, pcrs: Banks, mask: nat, bank: nat)
  {
    || (answered && Indices(mask) != [] && bank in pcrs)
    || ((bank == 0x0004 || bank == 0x000B || bank == 0x000C || bank == 0x000D) && (Indices(mask) == [] || bank in pcrs))
  }

  /** The device first; the kernel's files when it fails or reports nothing. */
  method ReadPcrValues(dev: Tpm, mask: u32, bank: u16) returns (r: Option<seq<PcrValue>>)
    requires dev.Valid()
    modifies dev
    ensures dev.Valid() && dev.Keeps({}) && dev.Owned() == old(dev.Owned())
    ensures r.Some? ==> r.value == ShownPairs(dev.fate(old(dev.clock)) == Answered, dev.pcrs, mask, bank)
    ensures r.Some? <==> Readable(dev.fate(old(dev.clock)) == Answered, dev.pcrs, mask, bank)
  {
    hide ShownPairs, IndicesFrom;
    var values := Tpm2PcrRead(dev, mask, bank);
    ReportOrFiles(dev.crypto, dev.pcrs, mask, bank);
    if values.Some? && values.value != [] {
      return values;
    }
    r := SysfsValues(dev.pcrs, mask, bank);
  }

  /** Where the device reports nothing the files have nothing else to tell. */
  lemma ReportOrFiles(c: Crypto, pcrs: Banks, mask: nat, bank: nat)
    requires c.ProperBanks(pcrs)
    ensures ShownPairs(true, pcrs, mask, bank) == [] <==> Indices(mask) == [] || bank !in pcrs
    ensures Indices(mask) == [] ==> ShownPairs(true, pcrs, mask, bank) == ShownPairs(false, pcrs, mask, bank) == []
  {
    hide IndicesFrom;
  }

  // ---------- sealing ----------

  predicate SupportedAlg(alg: nat) { alg == ALG_ECC || alg == ALG_RSA }

  /** What sealing hands back: the wrapping of the secret under the policy of the values it got to see. */
  predicate IsSealing(c: Crypto, answered: bool, pcrs: Banks, secret: seq<byte>, blob: Blob)
  {
    (blob.private, blob.public)
    == c.wrap(blob.primaryAlg, secret,
              PolicyDigest(c.hash, blob.pcrMask, blob.pcrBank, ShownPairs(answered, pcrs, blob.pcrMask, blob.pcrBank)))
  }

  /**
   Sealing.  On every run, whatever becomes of the commands, the live handles on return are those on
   entry and the ones nobody can flush any more.
   */
  method SealSecret(dev: Tpm, secret: seq<byte>, mask: u32, bank: u16, alg: u16) returns (r: Option<Blob>)
    requires dev.Valid()
    modifies dev
    ensures dev.Valid() && dev.Conserves()
    ensures dev.NothingLost(old(dev.clock), dev.clock) ==> dev.Live() == old(dev.Live())
    ensures r.Some? ==> 0 < |secret| <= 128 && (alg == 0x0001 || alg == 0x0023) && r.value.pcrMask == mask && r.value.pcrBank == bank && r.value.primaryAlg == alg
    ensures r.Some? ==> IsSealing(dev.crypto, dev.fate(old(dev.clock)) == Answered, dev.pcrs, secret, r.value)
    ensures
      (0 < |secret| <= 128 && (alg == 0x0001 || alg == 0x0023) && dev.AllAnswered(old(dev.clock) + 1, dev.clock)
       && Readable(dev.fate(old(dev.clock)) == Answered, dev.pcrs, mask, bank))
      ==> r.Some?
  {
    hide IsSealing, IndicesFrom, Readable;
    r := SealSteps(dev, secret, mask, bank, alg);
    OwnedAndLeaked(old(dev.Live()), old(dev.leaked), dev.Live(), dev.leaked);
  }

  /** Handles that are owned the same and leaked the more make up the live ones. */
  lemma OwnedAndLeaked(live0: set<nat>, leaked0: set<nat>, live: set<nat>, leaked: set<nat>)
    requires leaked0 <= live0 && leaked <= live && leaked0 <= leaked && live - leaked == live0 - leaked0
    ensures live == live0 + (leaked - leaked0)
    ensures leaked == leaked0 ==> live == live0
  {
    assert live == (live - leaked) + leaked && live0 == (live0 - leaked0) + leaked0;
  }

  method SealSteps(dev: Tpm, secret: seq<byte>, mask: u32, bank: u16, alg: u16) returns (r: Option<Blob>)
    requires dev.Valid()
    modifies dev
    ensures dev.Valid() && dev.Conserves()
    ensures r.Some? ==> 0 < |secret| <= 128 && (alg == 0x0001 || alg == 0x0023) && r.value.pcrMask == mask && r.value.pcrBank == bank && r.value.primaryAlg == alg
    ensures r.Some? ==> IsSealing(dev.crypto, dev.fate(old(dev.clock)) == Answered, dev.pcrs, secret, r.value)
    ensures
      (0 < |secret| <= 128 && (alg == 0x0001 || alg == 0x0023) && dev.AllAnswered(old(dev.clock) + 1, dev.clock)
       && Readable(dev.fate(old(dev.clock)) == Answered, dev.pcrs, mask, bank))
      ==> r.Some?
  {
    hide ShownPairs, IndicesFrom, PolicyDigest, Readable;
    if |secret| == 0 || |secret| > 128 {
      return None;
    }
    var values := ReadPcrValues(dev, mask, bank);
    if values.None? {
      return None;
    }
    var policy := PolicyDigest(dev.crypto.hash, mask, bank, values.value);
    if !SupportedAlg(alg) {
      return None;
    }
    var result := SealUnderPolicy(dev, secret, policy, alg);
    if result.None? {
      return None;
    }
    r := Some(Blob(mask, bank, alg, result.value.0, result.value.1));
  }

  /** The key, the sealed object, and the key flushed again. */
  method SealUnderPolicy(dev: Tpm, secret: seq<byte>, policy: seq<byte>, alg: nat) returns (r: Option<(seq<byte>, seq<byte>)>)
    requires dev.Valid()
    modifies dev
    ensures dev.Valid() && dev.Conserves()
    ensures r.Some? ==> r.value == dev.crypto.wrap(alg, secret, policy)
    ensures dev.AllAnswered(old(dev.clock), dev.clock) ==> r.Some?
  {
    var srk := dev.CreatePrimary(alg);
    if srk.None? {
      return None;
    }
    r := dev.Create(srk.value, secret, policy);
    dev.FlushContext(srk.value);
  }

  // ---------- unsealing ----------

  /** A fresh session after PolicyPCR has the session policy, where the TPM has the bank or no PCR is asked for. */
  lemma FreshSessionPolicy(dev: Tpm, mask: nat, bank: nat)
    requires dev.Valid() && bank < 0x1_0000
    ensures dev.AfterPolicyPcr(Zeros(32), BuildPcrSelection(mask, bank))
         == if Indices(mask) == [] || bank in dev.pcrs then Some(SessionPolicy(dev.crypto.hash, dev.pcrs, mask, bank)) else None
  {
    hide BuildPcrSelection, IndicesFrom, SelectedPcrs, ExtendPolicy, Zeros;
    SelectionMeans(mask, bank);
    if mask == 0 {
      NoBits(0);
      assert Indices(mask) == [];
    }
    if Indices(mask) == [] {
      assert Selected(dev.pcrs, mask, bank) == [];
    }
  }

  /** Whether the blob gives up its secret to the PCR values there are. */
  predicate Opens(c: Crypto, pcrs: Banks, blob: Blob)
  {
    var u := c.unwrap(blob.primaryAlg, blob.private, blob.public);
    && u.Some? && u.value.1 == SessionPolicy(c.hash, pcrs, blob.pcrMask, blob.pcrBank)
    && SupportedAlg(blob.primaryAlg) && (Indices(blob.pcrMask) == [] || blob.pcrBank in pcrs)
  }

  /**
   Unsealing.  The secret comes out only of a blob that opens to the PCR values, and of every one when
   all commands are answered; the handles are as for sealing.
   */
  method UnsealSecret(dev: Tpm, blob: Blob) returns (r: Option<seq<byte>>)
    requires dev.Valid()
    modifies dev
    ensures dev.Valid() && dev.Conserves()
    ensures dev.NothingLost(old(dev.clock), dev.clock) ==> dev.Live() == old(dev.Live())
    ensures r.Some? ==>
      Opens(dev.crypto, dev.pcrs, blob)
      && r.value == dev.crypto.unwrap(blob.primaryAlg, blob.private, blob.public).value.0
    ensures Opens(dev.crypto, dev.pcrs, blob) && dev.AllAnswered(old(dev.clock), dev.clock) ==> r.Some?
  {
    hide IndicesFrom, SessionPolicy, SupportedAlg;
    if SupportedAlg(blob.primaryAlg) {
      r := UnsealSteps(dev, blob);
    } else {
      r := None;
    }
    OwnedAndLeaked(old(dev.Live()), old(dev.leaked), dev.Live(), dev.leaked);
  }

  /** Whether a session that has the TPM's PCR values satisfies a policy. */
  predicate Met(c: Crypto, pcrs: Banks, blob: Blob, policy: seq<byte>)
  {
    policy == SessionPolicy(c.hash, pcrs, blob.pcrMask, blob.pcrBank) && (Indices(blob.pcrMask) == [] || blob.pcrBank in pcrs)
  }

  method UnsealSteps(dev: Tpm, blob: Blob) returns (r: Option<seq<byte>>)
    requires dev.Valid()
    modifies dev
    ensures dev.Valid() && dev.Conserves()
    ensures var u := dev.crypto.unwrap(blob.primaryAlg, blob.private, blob.public);
      && (r.Some? ==> u.Some? && Met(dev.crypto, dev.pcrs, blob, u.value.1) && r.value == u.value.0)
      && (u.Some? && Met(dev.crypto, dev.pcrs, blob, u.value.1) && dev.AllAnswered(old(dev.clock), dev.clock) ==> r.Some?)
  {
    hide Met;
    var srk := dev.CreatePrimary(blob.primaryAlg);
    if srk.None? {
      return None;
    }
    r := UnsealUnderKey(dev, blob, srk.value);
    dev.FlushContext(srk.value);
  }

  /** The object under its key, flushed again once loaded. */
  method UnsealUnderKey(dev: Tpm, blob: Blob, srk: nat) returns (r: Option<seq<byte>>)
    requires dev.Valid() && srk in dev.objects && dev.objects[srk] == StorageKey(blob.primaryAlg)
    modifies dev
    ensures dev.Valid() && dev.Conserves()
    ensures var u := dev.crypto.unwrap(blob.primaryAlg, blob.private, blob.public);
      && (r.Some? ==> u.Some? && Met(dev.crypto, dev.pcrs, blob, u.value.1) && r.value == u.value.0)
      && (u.Some? && Met(dev.crypto, dev.pcrs, blob, u.value.1) && dev.AllAnswered(old(dev.clock), dev.clock) ==> r.Some?)
  {
    hide Met;
    var obj := dev.Load(srk, blob.private, blob.public);
    if obj.None? {
      return None;
    }
    r := UnsealLoaded(dev, blob, obj.value);
    dev.FlushContext(obj.value);
  }

  /** With key and object loaded: a session of its own, flushed whatever comes of it. */
  method UnsealLoaded(dev: Tpm, blob: Blob, obj: nat) returns (r: Option<seq<byte>>)
    requires dev.Valid() && obj in dev.objects && dev.objects[obj].Sealed?
    modifies dev
    ensures dev.Valid() && dev.Conserves()
    ensures var sealed := old(dev.objects)[obj];
      && (r.Some? ==> Met(dev.crypto, dev.pcrs, blob, sealed.policy) && r.value == sealed.secret)
      && (Met(dev.crypto, dev.pcrs, blob, sealed.policy) && dev.AllAnswered(old(dev.clock), dev.clock) ==> r.Some?)
  {
    hide Met;
    var session := dev.StartAuthSession();
    if session.None? {
      return None;
    }
    r := UnsealInSession(dev, blob, obj, session.value);
    dev.FlushContext(session.value);
  }

  /** PolicyPCR, then the secret. */
  method UnsealInSession(dev: Tpm, blob: Blob, obj: nat, session: nat) returns (r: Option<seq<byte>>)
    requires dev.Valid() && obj in dev.objects && dev.objects[obj].Sealed?
    requires session in dev.sessions && dev.sessions[session] == Zeros(32)
    modifies dev
    ensures dev.Valid() && dev.Conserves()
    ensures var sealed := old(dev.objects)[obj];
      && (r.Some? ==> Met(dev.crypto, dev.pcrs, blob, sealed.policy) && r.value == sealed.secret)
      && (Met(dev.crypto, dev.pcrs, blob, sealed.policy) && dev.AllAnswered(old(dev.clock), dev.clock) ==> r.Some?)
  {
    hide IndicesFrom, SessionPolicy, BuildPcrSelection, Zeros, Tpm.AfterPolicyPcr;
    FreshSessionPolicy(dev, blob.pcrMask, blob.pcrBank);
    var ok := dev.PolicyPcr(session, BuildPcrSelection(blob.pcrMask, blob.pcrBank));
    if !ok {
      return None;
    }
    r := dev.Unseal(obj, session);
  }

  // ---------- there and back ----------

  /** Exactly when a sealing of the values before opens to the values after. */
  lemma SealingOpens(c: Crypto, answered: bool, before: Banks, after: Banks, secret: seq<byte>, blob: Blob)
    requires c.Lawful() && c.ProperBanks(before) && c.ProperBanks(after) && IsSealing(c, answered, before, secret, blob)
    ensures var u := c.unwrap(blob.primaryAlg, blob.private, blob.public); u.Some? && u.value.0 == secret
    ensures var mask, bank := blob.pcrMask, blob.pcrBank;
      var seen, now := Shown(answered, before, mask, bank), Selected(after, mask, bank);
      && (Opens(c, after, blob)
          <==> && (blob.primaryAlg == 0x0001 || blob.primaryAlg == 0x0023) && (Indices(mask) == [] || bank in after)
               && (seen == now || PolicyCollision(c.hash, mask, bank, seen, now)))
      && (Opens(c, after, blob) && answered && |Indices(mask)| > 8 ==> PolicyCollision(c.hash, mask, bank, seen, now))
  {
    hide IndicesFrom, PolicyDigest, ShownPairs, Shown, Selected, PolicyCollision, SessionPolicy;
    PoliciesAgreeExactly(c, answered, before, after, blob.pcrMask, blob.pcrBank);
  }

  /**
   Seal, let the PCRs change, unseal.  Only the secret comes out, and only where the values seen at
   sealing are the values now, or the two are a collision; when every command is answered, always
   there.  More than eight PCRs reported by the device leave nothing but the collision.
   */
  method SealThenUnseal(dev: Tpm, secret: seq<byte>, mask: u32, bank: u16, alg: u16, changed: Banks)
    returns (sealed: bool, r: Option<seq<byte>>)
    requires dev.Valid() && dev.crypto.Lawful() && dev.crypto.ProperBanks(changed)
    modifies dev
    ensures dev.Valid() && dev.Owned() == old(dev.Owned())
    ensures r.Some? ==> sealed && r.value == secret
    ensures var answered := dev.fate(old(dev.clock)) == Answered;
      var seen, now := Shown(answered, old(dev.pcrs), mask, bank), Selected(changed, mask, bank);
      var opens := (Indices(mask) == [] || bank in changed)
        && (seen == now || PolicyCollision(dev.crypto.hash, mask, bank, seen, now));
      && (r.Some? ==> opens)
      && (sealed && opens && dev.AllAnswered(old(dev.clock), dev.clock) ==> r == Some(secret))
      && (answered && |Indices(mask)| > 8 ==> r == None || PolicyCollision(dev.crypto.hash, mask, bank, seen, now))
      && (|Indices(mask)| <= 8 ==> seen == Selected(old(dev.pcrs), mask, bank))
  {
    hide IndicesFrom, Shown, Selected, Opens, IsSealing, SessionPolicy, PolicyCollision, Readable;
    ghost var answered := dev.fate(dev.clock) == Answered;
    SeenIsSelected(answered, dev.pcrs, mask, bank);
    var blob := SealSecret(dev, secret, mask, bank, alg);
    if blob.None? {
      return false, None;
    }
    SealingOpens(dev.crypto, answered, dev.pcrs, changed, secret, blob.value);
    dev.pcrs := changed;
    sealed := true;
    r := UnsealSecret(dev, blob.value);
  }

  lemma SeenIsSelected(answered: bool, pcrs: Banks, mask: nat, bank: nat)
    ensures |Indices(mask)| <= 8 ==> Shown(answered, pcrs, mask, bank) == Selected(pcrs, mask, bank)
  {
    hide IndicesFrom, Selected;
  }
}
