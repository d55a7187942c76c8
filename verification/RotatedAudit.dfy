/**
 One logger writing its chain through a rotating writer, and the verifier reading the current file.

 `encode` and `decode` are the line format; all that is asked of them is that a line that was
 written reads back as its entry.
 */
module RotatedAudit {
  import opened Prelude
  import opened AuditChain
  import opened LogRotation

  datatype Codec = Codec(encode: Entry -> Line, decode: Line -> Entry)

  ghost predicate RoundTrips(c: Codec) {
    forall e :: c.decode(c.encode(e)) == e
  }

  function Encoded(c: Codec, log: seq<Entry>): (f: File)
    ensures |f| == |log| && forall i :: 0 <= i < |log| ==> f[i] == c.encode(log[i])
  {
    seq(|log|, i requires 0 <= i < |log| => c.encode(log[i]))
  }

  function Decoded(c: Codec, f: File): (log: seq<Entry>)
    ensures |log| == |f| && forall i :: 0 <= i < |f| ==> log[i] == c.decode(f[i])
  {
    seq(|f|, i requires 0 <= i < |f| => c.decode(f[i]))
  }

  lemma EncodedNext(c: Codec, log: seq<Entry>, e: Entry)
    ensures Encoded(c, log + [e]) == Encoded(c, log) + [c.encode(e)]
  {}

  /** The tail of an encoded log reads back as the tail of the log. */
  lemma DecodedTail(c: Codec, log: seq<Entry>, n: nat, file: File)
    requires RoundTrips(c) && n <= |log| && file == Encoded(c, log)[n..]
    ensures Decoded(c, file) == log[n..]
  {}

  /** Backups hold at least one line each, so something has left the current file if and only if there is a backup. */
  lemma RotatedOut(
      threshold: int, backupCount: nat, current: Option<File>, backups: map<int, File>, depth: nat,
      dropped: File, written: File)
    requires Consistent(threshold, backupCount, current, backups, depth, dropped, written)
    ensures |Lines(current)| <= |written| && Lines(current) == written[|written| - |Lines(current)|..]
    ensures |Lines(current)| < |written| <==> depth > 0
  {
    var joined := Joined(backups, depth);
    assert written == (dropped + joined) + Lines(current);
    if depth > 0 {
      assert depth in backups && Size(backups[depth]) >= threshold > 0;
      assert backups[depth] != [];
    }
  }

  /**
   The verifier, reading only the current file of an untampered log, reports its first line if
   something was rotated out and the file is not empty, and nothing otherwise.
   */
  lemma CurrentFileReport(
      h: Hasher, c: Codec, log: seq<Entry>, threshold: int, backupCount: nat,
      current: Option<File>, backups: map<int, File>, depth: nat, dropped: File)
    requires RoundTrips(c) && NoGenesis(h, log) && Verifies(h, log)
    requires Consistent(threshold, backupCount, current, backups, depth, dropped, Encoded(c, log))
    ensures Violations(h, Decoded(c, Lines(current)), GENESIS, 1) ==
            if depth > 0 && Lines(current) != [] then [1] else []
  {
    RotatedOut(threshold, backupCount, current, backups, depth, dropped, Encoded(c, log));
    var n := |log| - |Lines(current)|;
    DecodedTail(c, log, n, Lines(current));
    SuffixReport(h, log, n);
    assert 0 < n < |log| <==> depth > 0 && Lines(current) != [];
  }

  lemma SuffixReport(h: Hasher, log: seq<Entry>, n: nat)
    requires NoGenesis(h, log) && Verifies(h, log) && n <= |log|
    ensures Violations(h, log[n..], GENESIS, 1) == if 0 < n < |log| then [1] else []
  {
    if n == 0 {
      assert log[0..] == log;
    } else if n < |log| {
      TailReported(h, log, n);
    }
  }

  class RotatingLogger {
    const codec: Codec
    const logger: AuditLogger
    const writer: LogWriter

    /** `logger.entries` is every entry so far, in whichever file it is now. */
    ghost predicate Valid()
      reads this, logger, writer
    {
      && RoundTrips(codec) && logger.Valid() && writer.Valid()
      && writer.written == Encoded(codec, logger.entries)
    }

    constructor (codec: Codec, h: Hasher, logRotationBytes: int, logBackupCount: nat)
      requires RoundTrips(codec) && DigestsSized(h)
      ensures Valid() && logger.entries == [] && logger.h == h
    {
      this.codec := codec;
      logger := new AuditLogger(h);
      writer := new LogWriter(logRotationBytes, logBackupCount);
      new;
      assert logger.entries == [] && Encoded(codec, []) == [];
    }

    method Log(data: Data)
      requires Valid()
      modifies logger, writer
      ensures Valid() && logger.logged == old(logger.logged) + [data]
    {
      EncodedNext(codec, logger.entries, Link(logger.h, End(logger.entries, GENESIS), data));
      logger.Log(data);
      var e := logger.entries[|logger.entries| - 1];
      writer.Write(codec.encode(e));
    }

    /** `verify_integrity` reads the current file only. */
    method VerifyIntegrity() returns (valid: bool, entryCount: nat, violations: seq<nat>)
      requires Valid() && NoGenesis(logger.h, logger.entries)
      ensures valid <==> 1 !in writer.backups || Lines(writer.current) == []
      ensures !valid ==> violations == [1]
      ensures entryCount == |Lines(writer.current)|
    {
      var entries := Decoded(codec, Lines(writer.current));
      violations := CheckEntries(logger.h, entries);
      WrittenChained(logger.h, GENESIS, logger.logged, 1);
      CurrentFileReport(logger.h, codec, logger.entries, writer.threshold, writer.backupCount,
                        writer.current, writer.backups, writer.depth, writer.dropped);
      valid, entryCount := violations == [], |entries|;
    }
  }
}
