/**
 * What a call of Write that returned ok means for the bytes of the log: its
 * record is read from the file exactly as far as the writer was in its place.
 */
module Durability {
  import opened Bytes
  import opened Operations
  import opened LogFormat
  import opened LogReader
  import opened LogWriter
  import opened LogPlace
  import opened GroupCommit

  // ---------- The records of the current file ----------

  /** The records of the attempts that were reported as appended. */
  function OkRecords(attempts: seq<Attempt>): seq<Record> {
    if attempts == [] then []
    else
      var last := attempts[|attempts| - 1];
      OkRecords(attempts[..|attempts| - 1]) + if last.ok then [last.record] else []
  }

  /**
   * The current file's records are those attempts; a record is sound while every attempt left the writer in its
   * place.
   */
  ghost predicate AttemptsInv(s: State) {
    && s.fileStart <= |s.log| && s.log[s.fileStart..] == OkRecords(s.attempts)
    && forall m {:trigger s.attempts[m]} :: 0 <= m < |s.attempts| ==>
         (s.attempts[m].record.sound <==> AllInPlace(s.attempts[..m + 1]))
  }

  lemma OneAttemptMore(s: State, s': State, a: Attempt)
    requires AttemptsInv(s) && s'.attempts == s.attempts + [a] && s'.fileStart == s.fileStart
    requires s'.log == s.log + if a.ok then [a.record] else []
    requires a.record.sound <==> AllInPlace(s.attempts) && a.inPlace
    ensures AttemptsInv(s')
  {
    assert s'.attempts[..|s.attempts|] == s.attempts;
    assert s'.log[s.fileStart..] == s.log[s.fileStart..] + if a.ok then [a.record] else [];
    forall m {:trigger s'.attempts[m]} | 0 <= m < |s'.attempts|
      ensures s'.attempts[m].record.sound <==> AllInPlace(s'.attempts[..m + 1])
    {
      if m < |s.attempts| {
        assert s'.attempts[..m + 1] == s.attempts[..m + 1];
        assert s'.attempts[m] == s.attempts[m];
      } else {
        assert s'.attempts[..m + 1] == s.attempts + [a];
      }
    }
  }

  lemma AttemptsKeep(bytes: ByteSize, s: State, step: Step, s': State)
    requires AttemptsInv(s) && Steps(bytes, s, step, s')
    ensures AttemptsInv(s')
  {
    if step.Append? {
      OneAttemptMore(s, s', s'.attempts[|s.attempts|]);
    }
  }

  lemma {:induction false} RunAttempts(bytes: ByteSize, start: nat, states: seq<State>, steps: seq<Step>, i: nat)
    requires Run(bytes, start, states, steps) && i < |states|
    ensures AttemptsInv(states[i])
    decreases i
  {
    if i == 0 {
    } else {
      RunAttempts(bytes, start, states, steps, i - 1);
      assert Steps(bytes, states[i - 1], steps[i - 1], states[i - 1 + 1]);
      AttemptsKeep(bytes, states[i - 1], steps[i - 1], states[i]);
    }
  }

  /** A record of the current file comes from an attempt. */
  lemma {:induction false} AttemptOf(attempts: seq<Attempt>, k: nat) returns (m: nat)
    requires k < |OkRecords(attempts)|
    ensures m < |attempts| && attempts[m].ok && attempts[m].record == OkRecords(attempts)[k]
    ensures |OkRecords(attempts[..m])| == k
    decreases |attempts|
  {
    var before := attempts[..|attempts| - 1];
    if k < |OkRecords(before)| {
      m := AttemptOf(before, k);
      assert before[..m] == attempts[..m];
    } else {
      m := |attempts| - 1;
    }
  }

  // ---------- The bytes behind them ----------

  /** How a batch that is numbered from a base is put into a record. */
  type Encode = (nat, Batch) -> seq<Byte>

  function OffsetBefore(calls: seq<Append>, m: nat): nat
    requires m <= |calls|
  {
    if m == 0 then 0 else calls[m - 1].off
  }

  /** The attempts are calls of AddRecord on the file, which turned out as they say. */
  ghost predicate Backs(crc: Crc, encode: Encode, attempts: seq<Attempt>, calls: seq<Append>) {
    && |calls| == |attempts| && Session(crc, [], 0, calls)
    && forall m {:trigger calls[m]} {:trigger attempts[m]} :: 0 <= m < |calls| ==>
         && calls[m].slice == encode(attempts[m].record.base, attempts[m].record.ops) && calls[m].ok == attempts[m].ok
         && OffsetBefore(calls, m) <= BLOCK_SIZE
         && (attempts[m].inPlace <==> CallInPlace(OffsetBefore(calls, m), calls[m]))
  }

  /** The calls up to an attempt, with all attempts so far in place. */
  lemma {:induction false} SessionSoFar(crc: Crc, dest: seq<Byte>, off: nat, calls: seq<Append>, n: nat)
    requires off <= BLOCK_SIZE && n <= |calls| && Session(crc, dest, off, calls)
    requires forall m {:trigger calls[m]} :: 0 <= m < n ==>
               var before := if m == 0 then off else calls[m - 1].off;
               before <= BLOCK_SIZE && CallInPlace(before, calls[m])
    ensures Session(crc, dest, off, calls[..n]) && InPlace(off, calls[..n])
    decreases n
  {
    if n == 0 {
    } else {
      assert calls[..n][1..] == calls[1..][..n - 1];
      forall m {:trigger calls[1..][m]} | 0 <= m < n - 1
        ensures var before := if m == 0 then calls[0].off else calls[1..][m - 1].off;
                before <= BLOCK_SIZE && CallInPlace(before, calls[1..][m])
      {
        assert calls[1..][m] == calls[m + 1];
        assert m > 0 ==> calls[1..][m - 1] == calls[m];
      }
      SessionSoFar(crc, calls[0].dest, calls[0].off, calls[1..], n - 1);
    }
  }

  /** Appending never takes bytes off a file. */
  lemma {:induction false} FilesGrow(crc: Crc, dest: seq<Byte>, off: nat, calls: seq<Append>, m: nat, n: nat)
    requires off <= BLOCK_SIZE && m <= n <= |calls| && Session(crc, dest, off, calls)
    ensures LastFile(dest, calls[..m]) <= LastFile(dest, calls[..n])
    decreases |calls|
  {
    if n == 0 {
    } else {
      var a := calls[0];
      OneCallGrows(crc, dest, off, a);
      assert calls[..n][1..] == calls[1..][..n - 1];
      assert LastFile(dest, calls[..n]) == LastFile(a.dest, calls[1..][..n - 1]);
      if m == 0 {
        FilesGrow(crc, a.dest, a.off, calls[1..], 0, n - 1);
      } else {
        assert calls[..m][1..] == calls[1..][..m - 1];
        assert LastFile(dest, calls[..m]) == LastFile(a.dest, calls[1..][..m - 1]);
        FilesGrow(crc, a.dest, a.off, calls[1..], m - 1, n - 1);
      }
    }
  }

  lemma OneCallGrows(crc: Crc, dest: seq<Byte>, off: nat, a: Append)
    requires off <= BLOCK_SIZE
    requires Wrote(crc, dest + Zeros(a.trailer), off, true, a.slice, a.ok, a.dest, a.off)
    ensures dest <= a.dest
  {
    WroteBetween(crc, dest + Zeros(a.trailer), off, a.slice, a.ok, a.dest, a.off);
  }

  /**
   * A sound record is read from every file that has the bytes of the calls up to
   * its own: from the log at that time, from the log as it grew, and from what a
   * crash left of it after a Sync.
   */
  lemma SoundIsRead(crc: Crc, encode: Encode, s: State, calls: seq<Append>, n: nat, r: nat, file: seq<Byte>)
    requires AttemptsInv(s) && Backs(crc, encode, s.attempts, calls) && n <= |calls|
    requires LastFile([], calls[..n]) <= file
    requires s.fileStart <= r < |s.log| && r - s.fileStart < |OkRecords(s.attempts[..n])| && s.log[r].sound
    ensures encode(s.log[r].base, s.log[r].ops) in ReadAll(crc, file, START).0
  {
    var k := r - s.fileStart;
    assert s.log[s.fileStart..][k] == s.log[r];
    var m := AttemptOf(s.attempts, k);
    EarlierAttempt(s.attempts, m, n);
    InPlaceSoFar(crc, encode, s.attempts, calls, m);
    SessionSoFar(crc, [], 0, calls, m + 1);
    FilesGrow(crc, [], 0, calls, m + 1, n);
    SessionReads(crc, calls[..m + 1], file);
    assert calls[..m + 1][m] == calls[m];
    OkIsWhole(crc, [], 0, calls[..m + 1], m);
  }

  lemma {:induction false} EarlierAttempt(attempts: seq<Attempt>, m: nat, n: nat)
    requires m <= |attempts| && n <= |attempts| && |OkRecords(attempts[..m])| < |OkRecords(attempts[..n])|
    ensures m < n
    decreases m
  {
    if m >= n {
      OkRecordsGrow(attempts, n, m);
    }
  }

  lemma {:induction false} OkRecordsGrow(attempts: seq<Attempt>, n: nat, m: nat)
    requires n <= m <= |attempts|
    ensures |OkRecords(attempts[..n])| <= |OkRecords(attempts[..m])|
    decreases m
  {
    if m == n {
    } else {
      assert attempts[..m][..m - 1] == attempts[..m - 1];
      OkRecordsGrow(attempts, n, m - 1);
    }
  }

  lemma InPlaceSoFar(crc: Crc, encode: Encode, attempts: seq<Attempt>, calls: seq<Append>, m: nat)
    requires Backs(crc, encode, attempts, calls) && m < |attempts| && AllInPlace(attempts[..m + 1])
    ensures forall j {:trigger calls[j]} :: 0 <= j < m + 1 ==>
              var before := if j == 0 then 0 else calls[j - 1].off;
              before <= BLOCK_SIZE && CallInPlace(before, calls[j])
  {
    forall j {:trigger calls[j]} | 0 <= j < m + 1
      ensures OffsetBefore(calls, j) <= BLOCK_SIZE && CallInPlace(OffsetBefore(calls, j), calls[j])
    {
      assert attempts[..m + 1][j] == attempts[j];
    }
  }

  // ---------- Durability ----------

  /** Call `id` is in record `r`, which is in the memtable, synced if asked for, and read from `file` if it is sound. */
  ghost predicate DurableIn(crc: Crc, encode: Encode, s: State, id: nat, r: nat, file: seq<Byte>)
    requires id < |s.calls|
  {
    && Logged(s.log, id, r) && r in s.inserted && (s.calls[id].sync ==> r in s.synced)
    && (s.fileStart <= r && s.log[r].sound ==> encode(s.log[r].base, s.log[r].ops) in ReadAll(crc, file, START).0)
  }

  /**
   * Whatever fails, a call that returned ok with a batch has it in a record that
   * is in the memtable, and synced if it asked for that.  That record is read
   * from its file if no append to the file, up to its own, left the writer out
   * of its place.
   */
  lemma OkIsDurable(crc: Crc, encode: Encode, bytes: ByteSize, start: nat, states: seq<State>, steps: seq<Step>, i: nat,
                    id: nat, calls: seq<Append>, file: seq<Byte>)
    returns (r: nat)
    requires Run(bytes, start, states, steps) && i < |states|
    requires id < |states[i].calls| && id < |states[i].phase| && states[i].phase[id] == Done(Ok)
    requires !states[i].calls[id].isNull
    requires Backs(crc, encode, states[i].attempts, calls) && LastFile([], calls) <= file
    ensures DurableIn(crc, encode, states[i], id, r, file)
    ensures states[i].fileStart <= r ==>
              exists m :: && 0 <= m < |states[i].attempts| && states[i].attempts[m].record == states[i].log[r]
                          && (states[i].log[r].sound <==> AllInPlace(states[i].attempts[..m + 1]))
  {
    var s := states[i];
    OkIsLogged(bytes, start, states, steps, i, id);
    RunAttempts(bytes, start, states, steps, i);
    var q :| Logged(s.log, id, q) && q in s.inserted && (s.calls[id].sync ==> q in s.synced);
    r := q;
    if s.fileStart <= r {
      var m := RecordAttempt(s, r);
      if s.log[r].sound {
        SoundIsReadNow(crc, encode, s, calls, r, file);
      }
    }
  }

  lemma RecordAttempt(s: State, r: nat) returns (m: nat)
    requires AttemptsInv(s) && s.fileStart <= r < |s.log|
    ensures m < |s.attempts| && s.attempts[m].record == s.log[r]
    ensures s.log[r].sound <==> AllInPlace(s.attempts[..m + 1])
  {
    assert s.log[s.fileStart..][r - s.fileStart] == s.log[r];
    m := AttemptOf(s.attempts, r - s.fileStart);
    assert s.attempts[m].record == s.log[r];
  }

  lemma SoundIsReadNow(crc: Crc, encode: Encode, s: State, calls: seq<Append>, r: nat, file: seq<Byte>)
    requires AttemptsInv(s) && Backs(crc, encode, s.attempts, calls) && LastFile([], calls) <= file
    requires s.fileStart <= r < |s.log| && s.log[r].sound
    ensures encode(s.log[r].base, s.log[r].ops) in ReadAll(crc, file, START).0
  {
    assert calls[..|calls|] == calls && s.attempts[..|calls|] == s.attempts;
    SoundIsRead(crc, encode, s, calls, |calls|, r, file);
  }
}
