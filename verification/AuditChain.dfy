/**
 The audit log's hash chain: every entry stores the digest of its predecessor's digest followed
 by its own serialized data, and a verifier recomputes the chain from the genesis value.

 Nothing is assumed of the hash beyond the length of its digests.  Where a theorem needs the hash
 to be good, it says so about the very strings hashed in the logs at hand (`Sound`), so a failure
 of its conclusion exhibits a collision or a preimage of the genesis value.
 */
module AuditChain {

  /** An entry's fields, already serialized to text one by one. */
  datatype Data = Data(fields: map<string, string>)

  /** `sha` is the hex digest, `serialize` the canonical (sorted) JSON dump. */
  datatype Hasher = Hasher(sha: string -> string, serialize: Data -> string)

  /** `chain` and `prev` are `_chain` and `_prev`; empty when the line lacks them. */
  datatype Entry = Entry(chain: string, prev: string, data: Data)

  const DIGEST_LENGTH: nat := 64
  const GENESIS: string := Repeat('0', DIGEST_LENGTH)

  function Repeat(c: char, n: nat): string {
    seq(n, _ => c)
  }

  ghost predicate DigestsSized(h: Hasher) {
    forall s :: |h.sha(s)| == DIGEST_LENGTH
  }

  ghost predicate Canonical(h: Hasher) {
    forall d, e :: h.serialize(d) == h.serialize(e) ==> d == e
  }

  /** Among the strings in `hashed` there is no collision and no preimage of the genesis value. */
  ghost predicate Sound(h: Hasher, hashed: set<string>) {
    && (forall x :: x in hashed ==> h.sha(x) != GENESIS)
    && (forall x, y :: x in hashed && y in hashed && h.sha(x) == h.sha(y) ==> x == y)
  }

  /** No entry's data and link hash to the genesis value. */
  ghost predicate NoGenesis(h: Hasher, log: seq<Entry>) {
    forall e :: e in log ==> h.sha(Preimage(h, e)) != GENESIS
  }

  function Preimage(h: Hasher, e: Entry): string {
    e.prev + h.serialize(e.data)
  }

  ghost function Preimages(h: Hasher, log: seq<Entry>): set<string> {
    set e | e in log :: Preimage(h, e)
  }

  /** `_compute_chain`: the entry written for `data` after digest `prev`. */
  function Link(h: Hasher, prev: string, data: Data): Entry {
    Entry(h.sha(prev + h.serialize(data)), prev, data)
  }

  /** What one logger writes for `datas`, starting after digest `prev`. */
  function Written(h: Hasher, prev: string, datas: seq<Data>): seq<Entry>
    decreases datas
  {
    if datas == [] then []
    else
      var e := Link(h, prev, datas[0]);
      [e] + Written(h, e.chain, datas[1..])
  }

  /** What the verifier reports for one entry; a bad link and a bad digest count separately. */
  function Report(h: Hasher, e: Entry, expected: string, line: nat): seq<nat> {
    if e.chain == "" then [line]
    else
      (if e.prev != expected then [line] else []) +
      (if h.sha(Preimage(h, e)) != e.chain then [line] else [])
  }

  /** A line without a digest does not move the expectation. */
  function NextExpected(e: Entry, expected: string): string {
    if e.chain == "" then expected else e.chain
  }

  /** The line numbers the verifier reports, in order. */
  function Violations(h: Hasher, log: seq<Entry>, expected: string, line: nat): seq<nat> {
    if log == [] then []
    else Report(h, log[0], expected, line) + Violations(h, log[1..], NextExpected(log[0], expected), line + 1)
  }

  ghost predicate Verifies(h: Hasher, log: seq<Entry>) {
    Violations(h, log, GENESIS, 1) == []
  }

  /** The digest the verifier expects after `log`. */
  function Carry(log: seq<Entry>, expected: string): string {
    if log == [] then expected
    else Carry(log[1..], NextExpected(log[0], expected))
  }

  function End(log: seq<Entry>, start: string): string {
    if log == [] then start else log[|log| - 1].chain
  }

  /** Every entry links to its predecessor and carries its own digest. */
  ghost predicate Chained(h: Hasher, log: seq<Entry>, start: string)
    decreases log
  {
    log == [] ||
    (Linked(h, log[0], start) && Chained(h, log[1..], log[0].chain))
  }

  ghost predicate Linked(h: Hasher, e: Entry, prev: string) {
    e.chain != "" && e.prev == prev && h.sha(Preimage(h, e)) == e.chain
  }

  lemma {:induction false} CarryAppend(a: seq<Entry>, b: seq<Entry>, expected: string)
    ensures Carry(a + b, expected) == Carry(b, Carry(a, expected))
  {
    if a == [] {
      assert a + b == b;
    } else {
      assert (a + b)[1..] == a[1..] + b;
      CarryAppend(a[1..], b, NextExpected(a[0], expected));
    }
  }

  /** The verifier works entry by entry: it can be resumed in the middle of a log. */
  lemma {:induction false} ViolationsAppend(h: Hasher, a: seq<Entry>, b: seq<Entry>, expected: string, line: nat)
    ensures Violations(h, a + b, expected, line) ==
            Violations(h, a, expected, line) + Violations(h, b, Carry(a, expected), line + |a|)
  {
    if a == [] {
      assert a + b == b;
    } else {
      assert (a + b)[1..] == a[1..] + b;
      var next := NextExpected(a[0], expected);
      ViolationsAppend(h, a[1..], b, next, line + 1);
      Assoc(Report(h, a[0], expected, line), Violations(h, a[1..], next, line + 1),
            Violations(h, b, Carry(a, expected), line + |a|));
    }
  }

  lemma Assoc(a: seq<nat>, b: seq<nat>, c: seq<nat>)
    ensures (a + b) + c == a + (b + c)
  {}

  lemma ViolationsCons(h: Hasher, e: Entry, rest: seq<Entry>, expected: string, line: nat)
    ensures Violations(h, [e] + rest, expected, line) ==
            Report(h, e, expected, line) + Violations(h, rest, NextExpected(e, expected), line + 1)
  {
    assert ([e] + rest)[1..] == rest;
  }

  lemma {:induction false} NoViolationsIffChained(h: Hasher, log: seq<Entry>, start: string, line: nat)
    ensures Violations(h, log, start, line) == [] <==> Chained(h, log, start)
    ensures Chained(h, log, start) ==> Carry(log, start) == End(log, start)
    decreases log
  {
    if log != [] {
      NoViolationsIffChained(h, log[1..], log[0].chain, line + 1);
    }
  }

  lemma {:induction false} ChainedSplit(h: Hasher, log: seq<Entry>, start: string, n: nat)
    requires Chained(h, log, start) && n <= |log|
    ensures Chained(h, log[..n], start) && Chained(h, log[n..], End(log[..n], start))
    ensures n < |log| ==> Linked(h, log[n], End(log[..n], start))
    decreases log
  {
    if n > 0 {
      ChainedSplit(h, log[1..], log[0].chain, n - 1);
      assert log[..n][1..] == log[1..][..n - 1];
      assert log[n..] == log[1..][n - 1..];
      assert End(log[..n], start) == End(log[1..][..n - 1], log[0].chain);
    } else {
      assert log[..0] == [] && log[0..] == log;
    }
  }

  lemma PrefixPreimages(h: Hasher, log: seq<Entry>, n: nat)
    requires n <= |log|
    ensures Preimages(h, log[..n]) <= Preimages(h, log)
  {}

  lemma PrevSized(h: Hasher, log: seq<Entry>, i: nat)
    requires DigestsSized(h) && Chained(h, log, GENESIS) && i < |log|
    ensures |log[i].prev| == DIGEST_LENGTH
  {
    ChainedSplit(h, log, GENESIS, i);
    if i > 0 {
      ChainedSplit(h, log, GENESIS, i - 1);
      assert log[..i][i - 1] == log[i - 1];
    }
  }

  // ----- What one logger writes verifies --------------------------------------------------

  lemma {:induction false} WrittenChained(h: Hasher, prev: string, datas: seq<Data>, line: nat)
    requires DigestsSized(h)
    ensures Violations(h, Written(h, prev, datas), prev, line) == []
    ensures |Written(h, prev, datas)| == |datas|
    ensures forall i :: 0 <= i < |datas| ==> Written(h, prev, datas)[i].data == datas[i]
    decreases datas
  {
    if datas != [] {
      WrittenChained(h, Link(h, prev, datas[0]).chain, datas[1..], line + 1);
    }
  }

  lemma {:induction false} WrittenAppend(h: Hasher, prev: string, datas: seq<Data>, data: Data)
    ensures Written(h, prev, datas + [data]) ==
            Written(h, prev, datas) + [Link(h, End(Written(h, prev, datas), prev), data)]
    decreases datas
  {
    if datas == [] {
      assert datas + [data] == [data];
    } else {
      assert (datas + [data])[1..] == datas[1..] + [data];
      WrittenAppend(h, Link(h, prev, datas[0]).chain, datas[1..], data);
    }
  }

  // ----- The chain determines the log -----------------------------------------------------

  lemma EndNotGenesis(h: Hasher, log: seq<Entry>)
    requires Chained(h, log, GENESIS) && NoGenesis(h, log) && log != []
    ensures End(log, GENESIS) != GENESIS
  {
    ChainedSplit(h, log, GENESIS, |log| - 1);
    assert log[|log| - 1] in log;
  }

  lemma SoundNoGenesis(h: Hasher, log: seq<Entry>, more: set<string>)
    requires Sound(h, Preimages(h, log) + more)
    ensures NoGenesis(h, log)
  {
    forall e | e in log ensures h.sha(Preimage(h, e)) != GENESIS {
      assert Preimage(h, e) in Preimages(h, log);
    }
  }

  lemma LastLinked(h: Hasher, log: seq<Entry>)
    requires DigestsSized(h) && Chained(h, log, GENESIS) && log != []
    ensures var e := log[|log| - 1];
            && h.sha(Preimage(h, e)) == e.chain == End(log, GENESIS)
            && |e.prev| == DIGEST_LENGTH && Preimage(h, e) in Preimages(h, log)
  {
    ChainedSplit(h, log, GENESIS, |log| - 1);
    PrevSized(h, log, |log| - 1);
  }

  lemma SoundInjective(h: Hasher, hashed: set<string>, x: string, y: string)
    requires Sound(h, hashed) && x in hashed && y in hashed && h.sha(x) == h.sha(y)
    ensures x == y
  {}

  lemma LastDetermined(h: Hasher, a: seq<Entry>, b: seq<Entry>)
    requires DigestsSized(h) && Canonical(h) && Sound(h, Preimages(h, a) + Preimages(h, b))
    requires Chained(h, a, GENESIS) && Chained(h, b, GENESIS) && a != [] && b != []
    requires End(a, GENESIS) == End(b, GENESIS)
    ensures a[|a| - 1] == b[|b| - 1]
  {
    LastLinked(h, a);
    LastLinked(h, b);
    SoundInjective(h, Preimages(h, a) + Preimages(h, b), Preimage(h, a[|a| - 1]), Preimage(h, b[|b| - 1]));
    SamePreimage(h, a[|a| - 1], b[|b| - 1]);
  }

  lemma {:induction false} ChainedDetermined(h: Hasher, a: seq<Entry>, b: seq<Entry>)
    requires DigestsSized(h) && Canonical(h) && Sound(h, Preimages(h, a) + Preimages(h, b))
    requires Chained(h, a, GENESIS) && Chained(h, b, GENESIS) && End(a, GENESIS) == End(b, GENESIS)
    ensures a == b
    decreases |a|
  {
    if a == [] {
      if b != [] {
        SoundNoGenesis(h, b, Preimages(h, a));
        EndNotGenesis(h, b);
      }
    } else if b == [] {
      SoundNoGenesis(h, a, Preimages(h, b));
      EndNotGenesis(h, a);
    } else {
      var m, n := |a| - 1, |b| - 1;
      LastDetermined(h, a, b);
      ChainedSplit(h, a, GENESIS, m);
      ChainedSplit(h, b, GENESIS, n);
      PrefixPreimages(h, a, m);
      PrefixPreimages(h, b, n);
      ChainedDetermined(h, a[..m], b[..n]);
      SplitLast(a);
      SplitLast(b);
    }
  }

  lemma SplitLast(log: seq<Entry>)
    requires log != []
    ensures log == log[..|log| - 1] + [log[|log| - 1]]
  {}

  /** Two logs that verify and end in the same digest are the same log. */
  lemma ChainDeterminesLog(h: Hasher, a: seq<Entry>, b: seq<Entry>)
    requires DigestsSized(h) && Canonical(h) && Sound(h, Preimages(h, a) + Preimages(h, b))
    requires Verifies(h, a) && Verifies(h, b) && End(a, GENESIS) == End(b, GENESIS)
    ensures a == b
  {
    NoViolationsIffChained(h, a, GENESIS, 1);
    NoViolationsIffChained(h, b, GENESIS, 1);
    ChainedDetermined(h, a, b);
  }

  lemma SamePreimage(h: Hasher, d: Entry, e: Entry)
    requires Canonical(h) && |d.prev| == |e.prev| && d.chain == e.chain
    requires Preimage(h, d) == Preimage(h, e)
    ensures d == e
  {
    assert d.prev == Preimage(h, d)[..|d.prev|] && e.prev == Preimage(h, e)[..|e.prev|];
    assert h.serialize(d.data) == Preimage(h, d)[|d.prev|..] && h.serialize(e.data) == Preimage(h, e)[|e.prev|..];
  }

  /** In a log that verifies all digests differ, and none is the genesis value. */
  lemma DigestsDistinct(h: Hasher, log: seq<Entry>, i: nat, j: nat)
    requires DigestsSized(h) && Canonical(h) && Sound(h, Preimages(h, log)) && Verifies(h, log)
    requires i < j <= |log|
    ensures End(log[..i], GENESIS) != End(log[..j], GENESIS)
  {
    NoViolationsIffChained(h, log, GENESIS, 1);
    ChainedSplit(h, log, GENESIS, i);
    ChainedSplit(h, log, GENESIS, j);
    PrefixPreimages(h, log, i);
    PrefixPreimages(h, log, j);
    if End(log[..i], GENESIS) == End(log[..j], GENESIS) {
      ChainedDetermined(h, log[..i], log[..j]);
    }
  }

  // ----- The verifier localises tampering -------------------------------------------------

  /** A log that verifies is clean up to `n`, and from `n` on after the digest reached there. */
  lemma VerifiesParts(h: Hasher, log: seq<Entry>, n: nat, line: nat)
    requires Verifies(h, log) && n <= |log|
    ensures Violations(h, log[..n], GENESIS, 1) == []
    ensures Carry(log[..n], GENESIS) == End(log[..n], GENESIS)
    ensures Violations(h, log[n..], End(log[..n], GENESIS), line) == []
    ensures n < |log| ==>
              Linked(h, log[n], End(log[..n], GENESIS)) && End(log[..n + 1], GENESIS) == log[n].chain
  {
    NoViolationsIffChained(h, log, GENESIS, 1);
    ChainedSplit(h, log, GENESIS, n);
    NoViolationsIffChained(h, log[..n], GENESIS, 1);
    NoViolationsIffChained(h, log[n..], End(log[..n], GENESIS), line);
  }

  /** Changing only the data of entry `i` is reported exactly at line `i + 1`. */
  lemma ModificationLocalised(h: Hasher, log: seq<Entry>, i: nat, data: Data)
    requires DigestsSized(h) && Canonical(h) && Verifies(h, log) && i < |log| && data != log[i].data
    requires Sound(h, {Preimage(h, log[i]), log[i].prev + h.serialize(data)})
    ensures Violations(h, log[i := log[i].(data := data)], GENESIS, 1) == [i + 1]
  {
    var e := log[i].(data := data);
    VerifiesParts(h, log, i, 1);
    VerifiesParts(h, log, i + 1, i + 2);
    ModifiedDigest(h, log[i], data);
    SplicedViolations(h, log[..i], e, log[i + 1..]);
    UpdateSplits(log, i, e);
  }

  lemma UpdateSplits(log: seq<Entry>, i: nat, e: Entry)
    requires i < |log|
    ensures log[i := e] == log[..i] + ([e] + log[i + 1..])
  {}

  lemma ModifiedDigest(h: Hasher, e: Entry, data: Data)
    requires Canonical(h) && data != e.data && h.sha(Preimage(h, e)) == e.chain
    requires Sound(h, {Preimage(h, e), e.prev + h.serialize(data)})
    ensures h.sha(Preimage(h, e.(data := data))) != e.chain
  {
    var f := e.(data := data);
    if Preimage(h, f) == Preimage(h, e) {
      SamePreimage(h, f, e);
    }
  }

  lemma SplicedViolations(h: Hasher, a: seq<Entry>, e: Entry, b: seq<Entry>)
    requires Violations(h, a, GENESIS, 1) == [] && e.chain != "" && e.prev == Carry(a, GENESIS)
    requires Violations(h, b, e.chain, |a| + 2) == []
    ensures Violations(h, a + ([e] + b), GENESIS, 1) ==
            if h.sha(Preimage(h, e)) == e.chain then [] else [|a| + 1]
  {
    ViolationsAppend(h, a, [e] + b, GENESIS, 1);
    ViolationsCons(h, e, b, e.prev, |a| + 1);
  }

  /** Deleting entry `i` is reported exactly at line `i + 1`, unless `i` was the last entry. */
  lemma DeletionLocalised(h: Hasher, log: seq<Entry>, i: nat)
    requires DigestsSized(h) && Canonical(h) && Sound(h, Preimages(h, log)) && Verifies(h, log) && i < |log|
    ensures Violations(h, log[..i] + log[i + 1..], GENESIS, 1) == if i + 1 < |log| then [i + 1] else []
  {
    var expected := End(log[..i], GENESIS);
    if i + 1 < |log| {
      DigestsDistinct(h, log, i, i + 1);
      TailReportedAfter(h, log, i + 1, expected, i + 1);
    }
    AppendedAfterPrefix(h, log, i, log[i + 1..]);
  }

  /** Entries placed after a prefix of a log that verifies. */
  lemma AppendedAfterPrefix(h: Hasher, log: seq<Entry>, n: nat, more: seq<Entry>)
    requires Verifies(h, log) && n <= |log|
    ensures Violations(h, log[..n] + more, GENESIS, 1) == Violations(h, more, End(log[..n], GENESIS), n + 1)
  {
    VerifiesParts(h, log, n, 1);
    ViolationsAppend(h, log[..n], more, GENESIS, 1);
  }

  /** The tail of a log that verifies, met with a wrong expectation, is reported at its first line only. */
  lemma TailReportedAfter(h: Hasher, log: seq<Entry>, n: nat, expected: string, line: nat)
    requires Verifies(h, log) && n < |log| && expected != End(log[..n], GENESIS)
    ensures Violations(h, log[n..], expected, line) == [line]
  {
    VerifiesParts(h, log, n, line);
    VerifiesParts(h, log, n + 1, line + 1);
    assert log[n..][1..] == log[n + 1..];
  }

  /** A proper tail of a log, as rotation leaves in the current file, is reported at its first line. */
  lemma TailReported(h: Hasher, log: seq<Entry>, n: nat)
    requires NoGenesis(h, log) && Verifies(h, log) && 0 < n < |log|
    ensures Violations(h, log[n..], GENESIS, 1) == [1]
  {
    NoViolationsIffChained(h, log, GENESIS, 1);
    ChainedSplit(h, log, GENESIS, n);
    EndNotGenesis(h, log[..n]);
    TailReportedAfter(h, log, n, GENESIS, 1);
  }

  /** A line without a digest, put anywhere into a log that verifies, is reported at that line alone. */
  lemma InsertionLocalised(h: Hasher, log: seq<Entry>, i: nat, e: Entry)
    requires Verifies(h, log) && i <= |log| && e.chain == ""
    ensures Violations(h, log[..i] + ([e] + log[i..]), GENESIS, 1) == [i + 1]
  {
    VerifiesParts(h, log, i, i + 2);
    AppendedAfterPrefix(h, log, i, [e] + log[i..]);
    ViolationsCons(h, e, log[i..], End(log[..i], GENESIS), i + 1);
  }

  // ----- Which lines are reported, in any file --------------------------------------------

  /** The digest of the last entry that has one. */
  function LastDigest(log: seq<Entry>): string {
    if log == [] then GENESIS
    else if log[|log| - 1].chain != "" then log[|log| - 1].chain
    else LastDigest(log[..|log| - 1])
  }

  lemma {:induction false} CarryIsLastDigest(log: seq<Entry>)
    ensures Carry(log, GENESIS) == LastDigest(log)
  {
    if log != [] {
      var init, last := log[..|log| - 1], log[|log| - 1];
      CarryIsLastDigest(init);
      SplitLast(log);
      CarryAppend(init, [last], GENESIS);
      assert Carry([last], Carry(init, GENESIS)) == NextExpected(last, Carry(init, GENESIS));
    }
  }

  /** What is wrong with entry `k`: no digest; else a link not to the last digest before, and data that do not fit. */
  function Faults(h: Hasher, log: seq<Entry>, k: nat): nat
    requires k < |log|
  {
    var link := if log[k].prev != LastDigest(log[..k]) then 1 else 0;
    var digest := if h.sha(log[k].prev + h.serialize(log[k].data)) != log[k].chain then 1 else 0;
    if log[k].chain == "" then 1 else link + digest
  }

  lemma {:induction false} ReportedWithin(h: Hasher, log: seq<Entry>, expected: string, line: nat)
    ensures forall n :: n in Violations(h, log, expected, line) ==> line <= n < line + |log|
    decreases log
  {
    if log != [] {
      ReportedWithin(h, log[1..], NextExpected(log[0], expected), line + 1);
    }
  }

  /** The reports on the lines before and after entry `k` name other lines. */
  lemma ReportedParts(h: Hasher, log: seq<Entry>, k: nat) returns (a: seq<nat>, c: seq<nat>)
    requires k < |log|
    ensures Violations(h, log, GENESIS, 1) == a + (Report(h, log[k], LastDigest(log[..k]), k + 1) + c)
    ensures k + 1 !in a && k + 1 !in c
  {
    var e, before, after, expected := log[k], log[..k], log[k + 1..], LastDigest(log[..k]);
    CarryIsLastDigest(before);
    assert log == before + ([e] + after);
    ViolationsAppend(h, before, [e] + after, GENESIS, 1);
    ViolationsCons(h, e, after, expected, k + 1);
    ReportedWithin(h, before, GENESIS, 1);
    ReportedWithin(h, after, NextExpected(e, expected), k + 2);
    a, c := Violations(h, before, GENESIS, 1), Violations(h, after, NextExpected(e, expected), k + 2);
  }

  function Occurrences(a: seq<nat>, n: nat): nat {
    if a == [] then 0 else (if a[0] == n then 1 else 0) + Occurrences(a[1..], n)
  }

  /** In any file whatsoever, each line is reported as often as its entry has faults, so not at all if it has none. */
  lemma ReportedIff(h: Hasher, log: seq<Entry>, k: nat)
    requires k < |log|
    ensures Occurrences(Violations(h, log, GENESIS, 1), k + 1) == Faults(h, log, k)
  {
    var a, c := ReportedParts(h, log, k);
    CountedParts(a, Report(h, log[k], LastDigest(log[..k]), k + 1), c, k + 1);
    ReportCounted(h, log[k], LastDigest(log[..k]), k + 1);
  }

  lemma ReportCounted(h: Hasher, e: Entry, expected: string, line: nat)
    ensures Occurrences(Report(h, e, expected, line), line) ==
            if e.chain == "" then 1
            else (if e.prev != expected then 1 else 0) + (if h.sha(Preimage(h, e)) != e.chain then 1 else 0)
  {
    var link := if e.prev != expected then [line] else [];
    var digest := if h.sha(Preimage(h, e)) != e.chain then [line] else [];
    OccurrencesSplit(link, digest, line);
    assert Occurrences([line], line) == 1;
  }

  lemma CountedParts(a: seq<nat>, b: seq<nat>, c: seq<nat>, n: nat)
    requires n !in a && n !in c
    ensures Occurrences(a + (b + c), n) == Occurrences(b, n)
  {
    OccurrencesSplit(a, b + c, n);
    OccurrencesSplit(b, c, n);
    OccursNowhere(a, n);
    OccursNowhere(c, n);
  }

  lemma {:induction false} OccurrencesSplit(a: seq<nat>, b: seq<nat>, n: nat)
    ensures Occurrences(a + b, n) == Occurrences(a, n) + Occurrences(b, n)
  {
    if a == [] {
      assert a + b == b;
    } else {
      assert (a + b)[1..] == a[1..] + b;
      OccurrencesSplit(a[1..], b, n);
    }
  }

  lemma {:induction false} OccursNowhere(a: seq<nat>, n: nat)
    requires n !in a
    ensures Occurrences(a, n) == 0
  {
    if a != [] {
      OccursNowhere(a[1..], n);
    }
  }

  // ----- Several logger lifetimes in one file ---------------------------------------------

  /** Each lifetime appends to the same file but restarts its chain at genesis. */
  function Lifetimes(h: Hasher, runs: seq<seq<Data>>): seq<Entry> {
    if runs == [] then []
    else Lifetimes(h, runs[..|runs| - 1]) + Written(h, GENESIS, runs[|runs| - 1])
  }

  function LinesWritten(runs: seq<seq<Data>>): nat {
    if runs == [] then 0 else LinesWritten(runs[..|runs| - 1]) + |runs[|runs| - 1]|
  }

  /** First lines of the nonempty lifetimes that do not begin the file. */
  function RestartLines(runs: seq<seq<Data>>): seq<nat> {
    if runs == [] then []
    else
      var before := LinesWritten(runs[..|runs| - 1]);
      RestartLines(runs[..|runs| - 1]) + if runs[|runs| - 1] != [] && before > 0 then [before + 1] else []
  }

  /** No lifetime's last digest happens to be the genesis value. */
  ghost predicate EndsOffGenesis(h: Hasher, runs: seq<seq<Data>>) {
    forall run :: run in runs && run != [] ==> End(Written(h, GENESIS, run), GENESIS) != GENESIS
  }

  /** One lifetime, read after digest `expected`: only its first line can be at fault. */
  lemma LifetimeReported(h: Hasher, datas: seq<Data>, expected: string, line: nat)
    requires DigestsSized(h)
    ensures var w := Written(h, GENESIS, datas);
            && |w| == |datas| && Carry(w, expected) == End(w, expected)
            && Violations(h, w, expected, line) == if datas != [] && expected != GENESIS then [line] else []
  {
    var w := Written(h, GENESIS, datas);
    WrittenChained(h, GENESIS, datas, line);
    NoViolationsIffChained(h, w, GENESIS, line);
    if datas != [] {
      assert w[0] == Link(h, GENESIS, datas[0]);
    }
  }

  /** The verifier reports exactly the restarts. */
  lemma {:induction false} LifetimesReported(h: Hasher, runs: seq<seq<Data>>)
    requires DigestsSized(h) && EndsOffGenesis(h, runs)
    ensures Violations(h, Lifetimes(h, runs), GENESIS, 1) == RestartLines(runs)
    ensures |Lifetimes(h, runs)| == LinesWritten(runs)
    ensures Carry(Lifetimes(h, runs), GENESIS) == GENESIS <==> LinesWritten(runs) == 0
  {
    if runs != [] {
      var init, last := runs[..|runs| - 1], runs[|runs| - 1];
      LifetimesReported(h, init);
      OneMoreLifetime(h, Lifetimes(h, init), last);
    }
  }

  lemma OneMoreLifetime(h: Hasher, log: seq<Entry>, datas: seq<Data>)
    requires DigestsSized(h) && EndsOffGenesis(h, [datas])
    requires Carry(log, GENESIS) == GENESIS <==> |log| == 0
    ensures var w := Written(h, GENESIS, datas);
            && |w| == |datas|
            && Violations(h, log + w, GENESIS, 1) ==
               Violations(h, log, GENESIS, 1) + (if datas != [] && |log| > 0 then [|log| + 1] else [])
            && (Carry(log + w, GENESIS) == GENESIS <==> |log| + |datas| == 0)
  {
    var w, start := Written(h, GENESIS, datas), Carry(log, GENESIS);
    assert datas in [datas];
    ViolationsAppend(h, log, w, GENESIS, 1);
    CarryAppend(log, w, GENESIS);
    LifetimeReported(h, datas, start, |log| + 1);
  }

  /** Untampered entries of several lifetimes verify exactly when at most one of them wrote anything. */
  lemma {:induction false} LifetimesVerifyIff(h: Hasher, runs: seq<seq<Data>>)
    requires DigestsSized(h) && EndsOffGenesis(h, runs)
    ensures Verifies(h, Lifetimes(h, runs)) <==>
            forall i, j :: 0 <= i < j < |runs| ==> |runs[i]| == 0 || |runs[j]| == 0
  {
    LifetimesReported(h, runs);
    AtMostOneWrote(runs);
  }

  lemma {:induction false} NothingWritten(runs: seq<seq<Data>>)
    ensures LinesWritten(runs) == 0 <==> forall i :: 0 <= i < |runs| ==> |runs[i]| == 0
  {
    if runs != [] {
      NothingWritten(runs[..|runs| - 1]);
    }
  }

  lemma {:induction false} AtMostOneWrote(runs: seq<seq<Data>>)
    ensures RestartLines(runs) == [] <==>
            forall i, j :: 0 <= i < j < |runs| ==> |runs[i]| == 0 || |runs[j]| == 0
  {
    if runs != [] {
      var init := runs[..|runs| - 1];
      AtMostOneWrote(init);
      NothingWritten(init);
      assert forall i :: 0 <= i < |init| ==> init[i] == runs[i];
    }
  }

  // ----- The logger -----------------------------------------------------------------------

  /** The verifier's loop over the entries read from a file. */
  method CheckEntries(h: Hasher, entries: seq<Entry>) returns (violations: seq<nat>)
    ensures violations == Violations(h, entries, GENESIS, 1)
  {
    violations := [];
    var expectedPrev := GENESIS;
    for i := 0 to |entries|
      invariant violations + Violations(h, entries[i..], expectedPrev, i + 1) == Violations(h, entries, GENESIS, 1)
    {
      ghost var before, expected := violations, expectedPrev;
      var e := entries[i];
      assert entries[i..][1..] == entries[i + 1..];
      if e.chain == "" {
        violations := violations + [i + 1];
      } else {
        if e.prev != expectedPrev {
          violations := violations + [i + 1];
        }
        var computed := h.sha(e.prev + h.serialize(e.data));
        if computed != e.chain {
          violations := violations + [i + 1];
        }
        expectedPrev := e.chain;
      }
      assert violations == before + Report(h, e, expected, i + 1);
      Assoc(before, Report(h, e, expected, i + 1), Violations(h, entries[i + 1..], expectedPrev, i + 2));
    }
  }

  class AuditLogger {
    const h: Hasher
    var chainHash: string
    var entries: seq<Entry>
    ghost var logged: seq<Data>

    /** This logger alone wrote the file. */
    ghost predicate Valid()
      reads this
    {
      && DigestsSized(h)
      && entries == Written(h, GENESIS, logged)
      && chainHash == End(entries, "")
      && (entries != [] ==> |chainHash| == DIGEST_LENGTH)
    }

    constructor (h: Hasher)
      requires DigestsSized(h)
      ensures Valid() && logged == [] && this.h == h
    {
      this.h := h;
      chainHash := "";
      entries := [];
      logged := [];
    }

    method Log(data: Data)
      requires Valid()
      modifies this
      ensures Valid() && logged == old(logged) + [data]
      ensures entries == old(entries) + [Link(h, End(old(entries), GENESIS), data)]
      ensures Verifies(h, entries)
    {
      WrittenChained(h, GENESIS, logged, 1);
      NoViolationsIffChained(h, entries, GENESIS, 1);
      WrittenAppend(h, GENESIS, logged, data);
      WrittenChained(h, GENESIS, logged + [data], 1);
      var prev := if chainHash == "" then GENESIS else chainHash;
      var e := Link(h, prev, data);
      chainHash := e.chain;
      entries := entries + [e];
      logged := logged + [data];
    }

    /** Verifies whatever the file holds by now. */
    method VerifyIntegrity() returns (valid: bool, entryCount: nat, violations: seq<nat>)
      ensures valid <==> Verifies(h, entries)
      ensures entryCount == |entries| && violations == Violations(h, entries, GENESIS, 1)
    {
      violations := CheckEntries(h, entries);
      valid, entryCount := violations == [], |entries|;
    }

    method ReadEntries() returns (datas: seq<Data>)
      ensures |datas| == |entries| && forall i :: 0 <= i < |datas| ==> datas[i] == entries[i].data
      ensures Valid() ==> datas == logged
    {
      datas := seq(|entries|, i requires 0 <= i < |entries| reads this => entries[i].data);
      if Valid() {
        WrittenChained(h, GENESIS, logged, 1);
      }
    }
  }
}
