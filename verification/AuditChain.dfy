/**
 The tamper-evident audit log. Every entry signs its sequence number, the previous entry's
 signature if there is one, and its payload, written one after the other without tags or
 lengths. The MAC is a parameter about which nothing is assumed but its 32-byte length;
 payloads are their JSON bytes.
 */
module AuditChain {
  import opened Common

  const TAG_LENGTH: nat := 32

  type Tag = b: Bytes | |b| == TAG_LENGTH witness seq(TAG_LENGTH, _ => 0)

  /** HMAC-SHA256 by key and message. */
  type Mac = (Bytes, Bytes) -> Tag

  datatype Entry = Entry(payload: Bytes, signature: Bytes, sequence: nat, previous: Option<Bytes>)

  /** The bytes that are signed. */
  function SigningInput(sequence: nat, previous: Option<Bytes>, payload: Bytes): Bytes {
    LittleEndian(sequence, 8) + (if previous.Some? then previous.value else []) + payload
  }

  function InputOf(e: Entry): Bytes {
    SigningInput(e.sequence, e.previous, e.payload)
  }

  predicate Verifies(e: Entry, key: Bytes, mac: Mac) {
    e.signature == mac(key, InputOf(e))
  }

  /** The entry's signature is right and it names the expected predecessor. */
  predicate VerifyChain(e: Entry, key: Bytes, previous: Option<Bytes>, mac: Mac) {
    Verifies(e, key, mac) &&
    match (e.previous, previous)
    case (Some(curr), Some(prev)) => curr == prev
    case (None, None) => true
    case _ => false
  }

  method NewEntry(payload: Bytes, sequence: nat, key: Bytes, previous: Option<Bytes>, mac: Mac) returns (e: Entry)
    ensures e.payload == payload && e.sequence == sequence && e.previous == previous
    ensures |e.signature| == TAG_LENGTH && VerifyChain(e, key, previous, mac)
  {
    var input := LittleEndian(sequence, 8);
    if previous.Some? {
      input := input + previous.value;
    }
    input := input + payload;
    e := Entry(payload, mac(key, input), sequence, previous);
    assert input == InputOf(e);
  }

  method Verify(e: Entry, key: Bytes, mac: Mac) returns (ok: bool)
    ensures ok == Verifies(e, key, mac)
  {
    var input := LittleEndian(e.sequence, 8);
    if e.previous.Some? {
      input := input + e.previous.value;
    }
    input := input + e.payload;
    assert input == InputOf(e);
    ok := mac(key, input) == e.signature;
  }

  // ---------------------------------------------------------------- payloads

  /** The bytes of {"event_id":" with which every payload starts. */
  const PREFIX: Bytes := [0x7B, 0x22, 0x65, 0x76, 0x65, 0x6E, 0x74, 0x5F, 0x69, 0x64, 0x22, 0x3A, 0x22]

  lemma PrefixText()
    ensures var text := "{\"event_id\":\""; |PREFIX| == |text| && forall i :: 0 <= i < |text| ==> PREFIX[i] == text[i] as int
  {
  }

  predicate IsHexDigit(b: Byte) {
    0x30 <= b <= 0x39 || 0x61 <= b <= 0x66
  }

  /** A payload starts with its event id, a hyphenated lower-case UUID. */
  ghost predicate WellFormed(payload: Bytes) {
    && |payload| >= 49 && payload[..13] == PREFIX
    && forall i :: 13 <= i < 49 ==>
         if i in {21, 26, 31, 36} then payload[i] == 0x2D else IsHexDigit(payload[i])
  }

  // ---------------------------------------------------------------- unambiguous inputs

  predicate IsLink(previous: Option<Bytes>) {
    previous.Some? ==> |previous.value| == TAG_LENGTH
  }

  /** A payload cannot be read as a predecessor's signature followed by another payload. */
  lemma PayloadIsNotLinked(p: Bytes, s: Bytes, q: Bytes)
    requires WellFormed(p) && WellFormed(q) && |s| == TAG_LENGTH
    ensures p != s + q
  {
    assert IsHexDigit(p[32]);
    assert (s + q)[32] == q[..13][0] == 0x7B;
  }

  function Linked(previous: Option<Bytes>, payload: Bytes): Bytes {
    (if previous.Some? then previous.value else []) + payload
  }

  lemma LinkedInjective(s: Option<Bytes>, p: Bytes, t: Option<Bytes>, q: Bytes)
    requires IsLink(s) && IsLink(t) && WellFormed(p) && WellFormed(q) && Linked(s, p) == Linked(t, q)
    ensures s == t && p == q
  {
    match (s, t)
    case (None, None) =>
      assert Linked(s, p) == p && Linked(t, q) == q;
    case (Some(u), Some(v)) =>
      assert Linked(s, p)[..TAG_LENGTH] == u && Linked(t, q)[..TAG_LENGTH] == v;
      assert Linked(s, p)[TAG_LENGTH..] == p && Linked(t, q)[TAG_LENGTH..] == q;
    case (None, Some(v)) =>
      assert Linked(s, p) == p;
      PayloadIsNotLinked(p, v, q);
    case (Some(u), None) =>
      assert Linked(t, q) == q;
      PayloadIsNotLinked(q, u, p);
  }

  /** Equal signed bytes come from equal sequence numbers, predecessors and payloads. */
  lemma SigningInputInjective(n: nat, s: Option<Bytes>, p: Bytes, m: nat, t: Option<Bytes>, q: Bytes)
    requires n < TWO_64 && m < TWO_64 && IsLink(s) && IsLink(t) && WellFormed(p) && WellFormed(q)
    requires SigningInput(n, s, p) == SigningInput(m, t, q)
    ensures n == m && s == t && p == q
  {
    var x, y := LittleEndian(n, 8), LittleEndian(m, 8);
    assert x + Linked(s, p) == y + Linked(t, q) by {
      assert SigningInput(n, s, p) == x + Linked(s, p) && SigningInput(m, t, q) == y + Linked(t, q);
    }
    SameSplit(x, Linked(s, p), y, Linked(t, q));
    ByteRanges();
    LittleEndianInjective(n, m, 8);
    LinkedInjective(s, p, t, q);
  }

  /** The signed bytes: eight of the sequence number, lowest first, the 32 of the predecessor if any, the payload. */
  lemma SignedLayout(n: nat, previous: Option<Bytes>, payload: Bytes)
    requires n < TWO_64 && IsLink(previous)
    ensures var s, k := SigningInput(n, previous, payload), if previous.Some? then 32 else 0;
      && |s| == 8 + k + |payload|
      && FromLittleEndian(s[..8]) == n && s[0] == n % 256
      && (previous.Some? ==> s[8..40] == previous.value)
      && s[8 + k..] == payload
  {
    var s := SigningInput(n, previous, payload);
    assert s[..8] == LittleEndian(n, 8);
    ByteRanges();
    ReadOfLittleEndian(n, 8);
  }

  // ---------------------------------------------------------------- chains

  function Head(es: seq<Entry>): Option<Bytes> {
    if es == [] then None else Some(es[|es| - 1].signature)
  }

  /** Every entry verifies and names the signature of the entry before it. */
  ghost predicate Accepted(es: seq<Entry>, key: Bytes, mac: Mac) {
    es == [] ||
    (var init := es[..|es| - 1]; Accepted(init, key, mac) && VerifyChain(es[|es| - 1], key, Head(init), mac))
  }

  ghost predicate AllWellFormed(es: seq<Entry>) {
    forall i :: 0 <= i < |es| ==> es[i].sequence < TWO_64 && WellFormed(es[i].payload)
  }

  /** Two different signed inputs, one of each chain, with the same MAC. */
  ghost predicate Collide(a: seq<Entry>, b: seq<Entry>, key: Bytes, mac: Mac) {
    exists i, j :: 0 <= i < |a| && 0 <= j < |b|
                && InputOf(a[i]) != InputOf(b[j]) && mac(key, InputOf(a[i])) == mac(key, InputOf(b[j]))
  }

  lemma HeadIsLink(es: seq<Entry>, key: Bytes, mac: Mac)
    requires Accepted(es, key, mac)
    ensures IsLink(Head(es))
  {
  }

  /**
   The head signature determines the whole log: two accepted chains that end in the same
   signature have the same length and the same entries, or two inputs with the same MAC
   are at hand.
   */
  lemma {:induction false} HeadDeterminesChain(a: seq<Entry>, b: seq<Entry>, key: Bytes, mac: Mac)
    requires Accepted(a, key, mac) && Accepted(b, key, mac) && AllWellFormed(a) && AllWellFormed(b)
    requires Head(a) == Head(b)
    ensures a == b || Collide(a, b, key, mac)
  {
    if a != [] {
      var a', b', x, y := a[..|a| - 1], b[..|b| - 1], a[|a| - 1], b[|b| - 1];
      if InputOf(x) == InputOf(y) {
        HeadIsLink(a', key, mac);
        HeadIsLink(b', key, mac);
        SigningInputInjective(x.sequence, x.previous, x.payload, y.sequence, y.previous, y.payload);
        HeadDeterminesChain(a', b', key, mac);
        if a' == b' {
          assert a == a' + [x] && b == b' + [y];
        } else {
          var i, j :| 0 <= i < |a'| && 0 <= j < |b'| && InputOf(a'[i]) != InputOf(b'[j])
                   && mac(key, InputOf(a'[i])) == mac(key, InputOf(b'[j]));
          assert a[i] == a'[i] && b[j] == b'[j];
        }
      } else {
        assert mac(key, InputOf(a[|a| - 1])) == mac(key, InputOf(b[|b| - 1]));
      }
    }
  }

  lemma {:induction false} RejectedPrefix(es: seq<Entry>, n: nat, key: Bytes, mac: Mac)
    requires n <= |es| && !Accepted(es[..n], key, mac)
    ensures !Accepted(es, key, mac)
  {
    if n < |es| {
      assert es[..|es| - 1][..n] == es[..n];
      RejectedPrefix(es[..|es| - 1], n, key, mac);
    } else {
      assert es[..n] == es;
    }
  }

  // ---------------------------------------------------------------- lost entries

  /** Ascending places of a list of n entries. */
  ghost predicate Places(ks: seq<nat>, n: nat) {
    (forall i, j :: 0 <= i < j < |ks| ==> ks[i] < ks[j]) && (forall i :: 0 <= i < |ks| ==> ks[i] < n)
  }

  /** What is left of a log when only the entries at the places ks are kept. */
  ghost predicate KeptFrom(left: seq<Entry>, es: seq<Entry>, ks: seq<nat>) {
    && |left| == |ks| && Places(ks, |es|)
    && forall i :: 0 <= i < |ks| ==> left[i] == es[ks[i]]
  }

  ghost predicate Numbered(es: seq<Entry>) {
    forall i :: 0 <= i < |es| ==> es[i].sequence == i
  }

  lemma {:induction false} LinkAt(es: seq<Entry>, k: nat, key: Bytes, mac: Mac)
    requires Accepted(es, key, mac) && k < |es|
    ensures VerifyChain(es[k], key, Head(es[..k]), mac)
  {
    if k < |es| - 1 {
      LinkAt(es[..|es| - 1], k, key, mac);
      assert es[..|es| - 1][..k] == es[..k];
    }
  }

  /** Entries at different places of a numbered chain with one signature are a collision. */
  lemma SameSignatureCollides(es: seq<Entry>, i: nat, j: nat, key: Bytes, mac: Mac)
    requires Accepted(es, key, mac) && AllWellFormed(es) && Numbered(es)
    requires i < j < |es| && es[i].signature == es[j].signature
    ensures Collide(es, es, key, mac)
  {
    LinkAt(es, i, key, mac);
    LinkAt(es, j, key, mac);
    PrefixAccepted(es, i, key, mac);
    PrefixAccepted(es, j, key, mac);
    HeadIsLink(es[..i], key, mac);
    HeadIsLink(es[..j], key, mac);
    if InputOf(es[i]) == InputOf(es[j]) {
      SigningInputInjective(es[i].sequence, es[i].previous, es[i].payload, es[j].sequence, es[j].previous, es[j].payload);
    }
  }

  lemma PrefixAccepted(es: seq<Entry>, n: nat, key: Bytes, mac: Mac)
    requires Accepted(es, key, mac) && n <= |es|
    ensures Accepted(es[..n], key, mac)
  {
    if !Accepted(es[..n], key, mac) {
      RejectedPrefix(es, n, key, mac);
    }
  }

  /** An entry linked to the end of a shorter prefix than its own: a collision. */
  lemma SkippedLinkCollides(es: seq<Entry>, n: nat, k: nat, key: Bytes, mac: Mac)
    requires Accepted(es, key, mac) && AllWellFormed(es) && Numbered(es)
    requires n < k < |es| && VerifyChain(es[k], key, Head(es[..n]), mac)
    ensures Collide(es, es, key, mac)
  {
    LinkAt(es, k, key, mac);
    assert es[..k][|es[..k]| - 1] == es[k - 1];
    if n > 0 {
      assert es[..n][|es[..n]| - 1] == es[n - 1];
      SameSignatureCollides(es, n - 1, k - 1, key, mac);
    }
  }

  lemma {:induction false} AcceptedRemainder(es: seq<Entry>, left: seq<Entry>, ks: seq<nat>, key: Bytes, mac: Mac)
    requires Accepted(es, key, mac) && AllWellFormed(es) && Numbered(es) && KeptFrom(left, es, ks)
    requires Accepted(left, key, mac)
    ensures left <= es || Collide(es, es, key, mac)
  {
    if left != [] {
      var n := |left| - 1;
      PlaceAtLeast(ks, |es|, n);
      AcceptedRemainder(es, left[..n], ks[..n], key, mac);
      if left[..n] <= es && ks[n] != n {
        assert left[..n] == es[..n];
        SkippedLinkCollides(es, n, ks[n], key, mac);
      }
    }
  }

  /** What is left of a chain is accepted exactly when it is a beginning of it, or a collision is at hand. */
  lemma LossIsDetected(es: seq<Entry>, left: seq<Entry>, ks: seq<nat>, key: Bytes, mac: Mac)
    requires Accepted(es, key, mac) && AllWellFormed(es) && Numbered(es) && KeptFrom(left, es, ks)
    ensures left <= es ==> Accepted(left, key, mac)
    ensures Accepted(left, key, mac) ==> left <= es || Collide(es, es, key, mac)
  {
    if left <= es {
      PrefixAccepted(es, |left|, key, mac);
      assert es[..|left|] == left;
    } else if Accepted(left, key, mac) {
      AcceptedRemainder(es, left, ks, key, mac);
    }
  }

  lemma {:induction false} PlaceAtLeast(ks: seq<nat>, n: nat, i: nat)
    requires Places(ks, n) && i < |ks|
    ensures ks[i] >= i
  {
    if i > 0 {
      PlaceAtLeast(ks, n, i - 1);
    }
  }

  // ---------------------------------------------------------------- the logger

  /** The entries of a flush that could be written. */
  function Writable(es: seq<Entry>, written: nat -> bool): seq<Entry> {
    if es == [] then []
    else
      var earlier := Writable(es[..|es| - 1], written);
      if written(|es| - 1) then earlier + [es[|es| - 1]] else earlier
  }

  /** A numbered chain, its head and its length. */
  ghost predicate Consistent(es: seq<Entry>, previous: Option<Bytes>, n: nat, key: Bytes, mac: Mac) {
    Accepted(es, key, mac) && Numbered(es) && previous == Head(es) && n == |es|
  }

  /**
   The signed logger: it numbers and chains the entries, and writes them out when its buffer is full.
   An entry that cannot be written is dropped without notice.
   */
  class SignedAuditLogger {
    const key: Bytes
    const bufferSize: nat
    const mac: Mac
    var buffer: seq<Entry>
    var currentSequence: nat
    var previous: Option<Bytes>
    /** What reached the file or the standard output. */
    var output: seq<Entry>
    /** What was flushed, and the places of it that were written. */
    ghost var flushed: seq<Entry>
    ghost var places: seq<nat>

    ghost function Logged(): seq<Entry>
      reads this
    {
      flushed + buffer
    }

    ghost predicate Valid()
      reads this
    {
      Consistent(Logged(), previous, currentSequence, key, mac) && KeptFrom(output, flushed, places)
    }

    constructor (key: Bytes, bufferSize: nat, mac: Mac)
      ensures Valid() && Logged() == [] && output == []
    {
      this.key, this.bufferSize, this.mac := key, bufferSize, mac;
      buffer, currentSequence, previous, output, flushed, places := [], 0, None, [], [], [];
    }

    /** One more entry, in order, on a chain that stays accepted whatever was logged before. */
    method Log(payload: Bytes, written: nat -> bool)
      requires Valid()
      modifies this
      ensures Valid()
      ensures |Logged()| == |old(Logged())| + 1 && old(Logged()) <= Logged()
      ensures Logged()[|old(Logged())|].payload == payload
      ensures |buffer| < bufferSize || buffer == []
      ensures |old(buffer)| + 1 < bufferSize ==> flushed == old(flushed)
      ensures old(flushed) <= flushed && output == old(output) + Writable(flushed[|old(flushed)|..], written)
    {
      var sequence := currentSequence;
      currentSequence := currentSequence + 1;
      var entry := NewEntry(payload, sequence, key, previous, mac);
      previous := Some(entry.signature);
      ghost var before := Logged();
      buffer := buffer + [entry];
      Chained(before, entry, key, mac);
      assert Logged() == before + [entry];
      if |buffer| >= bufferSize {
        Flush(written);
        assert Logged() == before + [entry];
      }
    }

    /** The buffer is drained and every entry of it that can be written is appended to the output, in order. */
    method Flush(written: nat -> bool)
      requires KeptFrom(output, flushed, places)
      modifies this`buffer, this`output, this`flushed, this`places
      ensures buffer == [] && flushed == old(flushed + buffer)
      ensures output == old(output) + Writable(old(buffer), written)
      ensures KeptFrom(output, flushed, places)
    {
      var entries := buffer;
      buffer := [];
      for i := 0 to |entries|
        invariant buffer == [] && flushed == old(flushed) + entries[..i]
        invariant output == old(output) + Writable(entries[..i], written)
        invariant KeptFrom(output, flushed, places)
      {
        assert entries[..i + 1][..i] == entries[..i];
        KeepOne(output, flushed, places, entries[i]);
        if written(i) {
          output, places := output + [entries[i]], places + [|flushed|];
        }
        flushed := flushed + [entries[i]];
      }
      assert entries[..|entries|] == entries;
    }

    /** Verifying the buffered entries from the start of a chain. */
    method VerifyAll() returns (ok: bool)
      ensures ok == Accepted(buffer, key, mac)
    {
      var expected: Option<Bytes> := None;
      for n := 0 to |buffer|
        invariant Accepted(buffer[..n], key, mac) && expected == Head(buffer[..n])
      {
        assert buffer[..n + 1][..n] == buffer[..n];
        if !VerifyChain(buffer[n], key, expected, mac) {
          RejectedPrefix(buffer, n + 1, key, mac);
          return false;
        }
        expected := Some(buffer[n].signature);
      }
      assert buffer[..|buffer|] == buffer;
      ok := true;
    }
  }

  lemma KeepOne(left: seq<Entry>, es: seq<Entry>, ks: seq<nat>, e: Entry)
    requires KeptFrom(left, es, ks)
    ensures KeptFrom(left, es + [e], ks) && KeptFrom(left + [e], es + [e], ks + [|es|])
  {
  }

  /** Exactly the entries whose writing succeeds are written, in order. */
  lemma {:induction false} WritableExactly(es: seq<Entry>, written: nat -> bool) returns (ks: seq<nat>)
    ensures KeptFrom(Writable(es, written), es, ks)
    ensures forall i: nat :: i < |es| ==> (i in ks <==> written(i))
  {
    if es == [] {
      ks := [];
    } else {
      var n := |es| - 1;
      ks := WritableExactly(es[..n], written);
      KeepOne(Writable(es[..n], written), es[..n], ks, es[n]);
      assert es[..n] + [es[n]] == es;
      if written(n) {
        ks := ks + [n];
      }
    }
  }

  /** When nothing fails, everything is written. */
  lemma {:induction false} AllWritten(es: seq<Entry>, written: nat -> bool)
    requires forall i: nat :: written(i)
    ensures Writable(es, written) == es
  {
    if es != [] {
      AllWritten(es[..|es| - 1], written);
    }
  }

  lemma Chained(es: seq<Entry>, e: Entry, key: Bytes, mac: Mac)
    requires Consistent(es, Head(es), e.sequence, key, mac) && VerifyChain(e, key, Head(es), mac)
    ensures Consistent(es + [e], Some(e.signature), e.sequence + 1, key, mac)
  {
    assert (es + [e])[..|es + [e]| - 1] == es;
  }

  /** Before the first flush the buffer is the whole log and verifies; after one, it verifies only when it is empty. */
  lemma BufferVerifiesExactlyBeforeFlush(flushed: seq<Entry>, buffer: seq<Entry>, key: Bytes, mac: Mac)
    requires Accepted(flushed + buffer, key, mac)
    ensures Accepted(buffer, key, mac) <==> flushed == [] || buffer == []
  {
    if flushed == [] {
      assert flushed + buffer == buffer;
    } else if buffer != [] {
      FirstAfter(flushed, buffer, key, mac);
      FirstHasNoPredecessor(buffer, key, mac);
    }
  }

  lemma {:induction false} FirstAfter(flushed: seq<Entry>, buffer: seq<Entry>, key: Bytes, mac: Mac)
    requires Accepted(flushed + buffer, key, mac) && flushed != [] && buffer != []
    ensures buffer[0].previous.Some?
  {
    var all := flushed + buffer;
    if |buffer| == 1 {
      assert all[..|all| - 1] == flushed;
    } else {
      assert all[..|all| - 1] == flushed + buffer[..|buffer| - 1];
      FirstAfter(flushed, buffer[..|buffer| - 1], key, mac);
    }
  }

  lemma {:induction false} FirstHasNoPredecessor(es: seq<Entry>, key: Bytes, mac: Mac)
    requires es != []
    ensures Accepted(es, key, mac) ==> es[0].previous == None
  {
    if |es| > 1 {
      FirstHasNoPredecessor(es[..|es| - 1], key, mac);
    }
  }
}
