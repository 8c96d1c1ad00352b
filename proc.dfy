/** The Linux file-context evaluator of package `proc`: descriptor usage from
    the fd directory and the limits table, the locks a process holds from the
    global lock table, and the rule that decides whether the snapshot is worth
    reporting. The operating-system reads are inputs: `None` stands for a read
    that failed. */
module Proc {
  import opened Wrappers
  import opened Model
  import opened GoStrings

  /** The key of the limits-table row that carries the descriptor limit. */
  const MaxOpenFilesKey: string := "Max open files"

  // ---------------------------------------------------------------------
  // getOpenFileCount: the soft limit in the limits table
  // ---------------------------------------------------------------------

  /** The soft limit a "Max open files" row gives: its field 3 when the row
      has at least four fields and that field parses as an int, else 0. */
  function RowSoftLimit(line: string): (r: int)
    ensures MinInt64 <= r <= MaxInt64
    ensures |Fields(line)| < 4 ==> r == 0
    ensures r != 0 ==> Atoi(Fields(line)[3]) == Some(r)
    ensures |Fields(line)| >= 4 && Atoi(Fields(line)[3]).Some? ==> r == Atoi(Fields(line)[3]).value
  {
    var fields := Fields(line);
    if |fields| >= 4 then
      match Atoi(fields[3])
      case Some(limit) => limit
      case None => 0
    else 0
  }

  /** The index of the first line that starts with the key, if any. */
  function FirstKeyLine(lines: seq<string>): (r: Option<nat>)
    ensures r.None? <==> forall j :: 0 <= j < |lines| ==> !HasPrefix(lines[j], MaxOpenFilesKey)
    ensures r.Some? ==> r.value < |lines| && HasPrefix(lines[r.value], MaxOpenFilesKey)
    ensures r.Some? ==> forall j :: 0 <= j < r.value ==> !HasPrefix(lines[j], MaxOpenFilesKey)
  {
    if lines == [] then None
    else if HasPrefix(lines[0], MaxOpenFilesKey) then Some(0)
    else
      match FirstKeyLine(lines[1..])
      case None => None
      case Some(i) => Some(i + 1)
  }

  /** The soft limit read from the lines of a limits table: only the first
      key row is consulted, and 0 stands for "nothing usable". */
  function LinesSoftLimit(lines: seq<string>): (r: int)
    ensures MinInt64 <= r <= MaxInt64
    ensures r != 0 ==> exists i :: 0 <= i < |lines| && HasPrefix(lines[i], MaxOpenFilesKey) && RowSoftLimit(lines[i]) == r
  {
    match FirstKeyLine(lines)
    case None => 0
    case Some(i) => RowSoftLimit(lines[i])
  }

  /** The soft limit read from the text of a limits table. */
  function SoftLimit(limitsData: string): (r: int)
    ensures MinInt64 <= r <= MaxInt64
  {
    LinesSoftLimit(Split(limitsData, '\n'))
  }

  /** getOpenFileCount: the number of fd entries and the soft limit. An
      unreadable fd directory gives (0, 0) without consulting the limits; an
      unreadable limits table keeps the count and gives limit 0. */
  method GetOpenFileCount(fdEntries: Option<nat>, limitsData: Option<string>)
    returns (openFiles: nat, fileLimit: int)
    ensures fdEntries.None? ==> openFiles == 0 && fileLimit == 0
    ensures fdEntries.Some? ==> openFiles == fdEntries.value
    ensures fdEntries.Some? && limitsData.None? ==> fileLimit == 0
    ensures fdEntries.Some? && limitsData.Some? ==> fileLimit == SoftLimit(limitsData.value)
  {
    if fdEntries.None? {
      return 0, 0;
    }
    openFiles := fdEntries.value;
    fileLimit := 0;
    if limitsData.Some? {
      var lines := Split(limitsData.value, '\n');
      var i := 0;
      while i < |lines|
        invariant 0 <= i <= |lines|
        invariant forall j :: 0 <= j < i ==> !HasPrefix(lines[j], MaxOpenFilesKey)
        invariant fileLimit == 0
      {
        if HasPrefix(lines[i], MaxOpenFilesKey) {
          var fields := Fields(lines[i]);
          if |fields| >= 4 {
            var limit := Atoi(fields[3]);
            if limit.Some? {
              fileLimit := limit.value;
            }
          }
          assert FirstKeyLine(lines) == Some(i);
          break;
        }
        i := i + 1;
      }
    }
  }

  /** Only the first key row decides, even when it yields nothing and a later
      key row would. */
  lemma {:induction false} FirstKeyRowDecides(before: seq<string>, row: string, after: seq<string>)
    requires forall j :: 0 <= j < |before| ==> !HasPrefix(before[j], MaxOpenFilesKey)
    requires HasPrefix(row, MaxOpenFilesKey)
    ensures LinesSoftLimit(before + [row] + after) == RowSoftLimit(row)
  {
    var lines := before + [row] + after;
    assert lines[|before|] == row;
    assert forall j :: 0 <= j < |before| ==> lines[j] == before[j];
    var r := FirstKeyLine(lines);
    assert r.Some?;
    assert r.value == |before|;
  }

  /** A table without a key row gives limit 0. */
  lemma NoKeyRowNoLimit(lines: seq<string>)
    requires forall j :: 0 <= j < |lines| ==> !HasPrefix(lines[j], MaxOpenFilesKey)
    ensures LinesSoftLimit(lines) == 0
  {
  }

  /** A key row with fewer than four fields gives limit 0. */
  lemma ShortKeyRowNoLimit(row: string)
    requires |Fields(row)| < 4
    ensures RowSoftLimit(row) == 0
  {
  }

  /** The key itself splits into the three fields "Max", "open", "files". */
  lemma KeyFields(rest: string)
    requires rest == [] || IsSpace(rest[0])
    ensures Fields(MaxOpenFilesKey + rest) == ["Max", "open", "files"] + Fields(rest)
  {
    ThreeWords("Max", " ", "open", " ", "files", rest);
    KeySpelling(rest);
  }

  lemma KeySpelling(rest: string)
    ensures MaxOpenFilesKey + rest == "Max" + (" " + ("open" + (" " + ("files" + rest))))
  {
  }

  /** A well-formed key row "Max open files <soft> <hard> <unit>": the soft
      limit is the parsed soft field, or 0 when it does not parse (as for
      "unlimited"). */
  lemma {:induction false} KeyRowSoftLimit(
    pad1: string, soft: string, pad2: string, hard: string, pad3: string, unit: string, pad4: string)
    requires pad1 != [] && AllSpace(pad1) && pad2 != [] && AllSpace(pad2)
    requires pad3 != [] && AllSpace(pad3) && AllSpace(pad4)
    requires soft != [] && NoSpace(soft) && hard != [] && NoSpace(hard) && unit != [] && NoSpace(unit)
    ensures Fields(MaxOpenFilesKey + (pad1 + (soft + (pad2 + (hard + (pad3 + (unit + pad4)))))))
         == ["Max", "open", "files", soft, hard, unit]
    ensures RowSoftLimit(MaxOpenFilesKey + (pad1 + (soft + (pad2 + (hard + (pad3 + (unit + pad4)))))))
         == match Atoi(soft) case Some(limit) => limit case None => 0
  {
    var r3 := pad3 + (unit + pad4);
    var r2 := pad2 + (hard + r3);
    var r1 := pad1 + (soft + r2);
    assert Fields(r3) == [unit] by {
      FieldsPaddedWord(pad3, unit, pad4);
      FieldsAllSpace(pad4);
    }
    assert Fields(r2) == [hard, unit] by { FieldsPaddedWord(pad2, hard, r3); }
    assert Fields(r1) == [soft, hard, unit] by { FieldsPaddedWord(pad1, soft, r2); }
    assert Fields(MaxOpenFilesKey + r1) == ["Max", "open", "files", soft, hard, unit] by {
      KeyFields(r1);
    }
  }

  /** The row "Max open files   1024  524288  files" gives soft limit 1024. */
  lemma KeyRowExample(row: string)
    requires row == "Max open files   1024  524288  files"
    ensures RowSoftLimit(row) == 1024
  {
    ExampleSpelling();
    ExamplePieces();
    KeyRowSoftLimit("   ", "1024", "  ", "524288", "  ", "files", "");
    ExampleSoftValue();
  }

  lemma ExampleSpelling()
    ensures "Max open files   1024  524288  files"
         == MaxOpenFilesKey + ("   " + ("1024" + ("  " + ("524288" + ("  " + ("files" + ""))))))
  {
  }

  lemma ExamplePieces()
    ensures AllSpace("   ") && AllSpace("  ") && AllSpace("")
    ensures NoSpace("1024") && NoSpace("524288") && NoSpace("files")
  {
  }

  lemma ExampleSoftValue()
    ensures Atoi("1024") == Some(1024)
  {
    assert Itoa(1024) == "1024";
    AtoiItoa(1024);
  }

  /** A soft limit of "unlimited" does not parse, so the limit is 0. */
  lemma UnlimitedRowExample(row: string)
    requires row == "Max open files  unlimited  unlimited  files"
    ensures RowSoftLimit(row) == 0
  {
    UnlimitedSpelling();
    UnlimitedPieces();
    KeyRowSoftLimit("  ", "unlimited", "  ", "unlimited", "  ", "files", "");
  }

  lemma UnlimitedSpelling()
    ensures "Max open files  unlimited  unlimited  files"
         == MaxOpenFilesKey + ("  " + ("unlimited" + ("  " + ("unlimited" + ("  " + ("files" + ""))))))
  {
  }

  lemma UnlimitedPieces()
    ensures AllSpace("  ") && AllSpace("")
    ensures NoSpace("unlimited") && NoSpace("files")
    ensures Atoi("unlimited") == None
  {
    assert !IsDigit('u');
  }

  // ---------------------------------------------------------------------
  // getLockedFiles: the locks the process holds
  // ---------------------------------------------------------------------

  /** A lock-table row is attributed to the process whose pid text is
      pidStr: it is not empty, has at least eight fields, and its owner field
      (index 4) equals pidStr and is not the shared-lock sentinel "-1". */
  predicate RowQualifies(pidStr: string, line: string)
    ensures RowQualifies(pidStr, line) ==> pidStr != "-1" && pidStr != [] && NoSpace(pidStr)
  {
    line != "" && |Fields(line)| >= 8
    && Fields(line)[4] != Itoa(-1) && Fields(line)[4] == pidStr
  }

  /** The device:inode field (index 5) of a lock-table row. */
  function RowDevice(line: string): (r: string)
    requires |Fields(line)| >= 8
    ensures r != [] && NoSpace(r)
  {
    Fields(line)[5]
  }

  /** Row k of lines is attributed to the process and locks device x. */
  ghost predicate RowFor(pidStr: string, lines: seq<string>, k: int, x: string)
  {
    0 <= k < |lines| && RowQualifies(pidStr, lines[k]) && RowDevice(lines[k]) == x
  }

  /** The device fields of the attributed rows, in row order, repeats kept. */
  function LockIds(pidStr: string, lines: seq<string>): (r: seq<string>)
    ensures |r| <= |lines|
    ensures forall i :: 0 <= i < |r| ==> r[i] != [] && NoSpace(r[i])
  {
    if lines == [] then []
    else
      var last := lines[|lines| - 1];
      LockIds(pidStr, lines[..|lines| - 1])
        + (if RowQualifies(pidStr, last) then [RowDevice(last)] else [])
  }

  /** xs without repeats, each element kept where it first occurs. */
  function Dedup(xs: seq<string>): (r: seq<string>)
    ensures |r| <= |xs|
    ensures forall i :: 0 <= i < |r| ==> r[i] in xs
  {
    if xs == [] then []
    else
      var d := Dedup(xs[..|xs| - 1]);
      if xs[|xs| - 1] in d then d else d + [xs[|xs| - 1]]
  }

  /** The device:inode identifiers the process holds locks on, as read from
      the lock table; an unreadable table gives none. */
  function LockedFiles(pid: int, lockedFileData: Option<string>): (r: seq<string>)
    ensures lockedFileData.Some? ==> |r| <= |Split(lockedFileData.value, '\n')|
    ensures forall i :: 0 <= i < |r| ==> r[i] != [] && NoSpace(r[i])
  {
    match lockedFileData
    case None => []
    case Some(text) => Dedup(LockIds(Itoa(pid), Split(text, '\n')))
  }

  /** getLockedFiles: one pass over the rows of the lock table, appending the
      device field of each attributed row unless it is already there. */
  method GetLockedFiles(pid: int, lockedFileData: Option<string>) returns (result: seq<string>)
    ensures result == LockedFiles(pid, lockedFileData)
    ensures lockedFileData.None? ==> result == []
  {
    if lockedFileData.None? {
      return [];
    }
    result := [];
    var pidStr := Itoa(pid);
    var lines := Split(lockedFileData.value, '\n');
    for i := 0 to |lines|
      invariant result == Dedup(LockIds(pidStr, lines[..i]))
    {
      LockIdsStep(pidStr, lines, i);
      var line := lines[i];
      if line == "" {
        continue;
      }
      var fields := Fields(line);
      if |fields| < 8 {
        continue;
      }
      var lockPid := fields[4];
      var deviceInode := fields[5];
      if lockPid != Itoa(-1) && lockPid == pidStr {
        if deviceInode !in result {
          result := result + [deviceInode];
        }
      }
    }
    assert lines[..|lines|] == lines;
  }

  /** One more row: the identifiers grow by that row's device when it is
      attributed, and the deduplicated list by it when it is also new. */
  lemma LockIdsStep(pidStr: string, lines: seq<string>, i: int)
    requires 0 <= i < |lines|
    ensures RowQualifies(pidStr, lines[i]) ==>
      LockIds(pidStr, lines[..i + 1]) == LockIds(pidStr, lines[..i]) + [RowDevice(lines[i])]
    ensures !RowQualifies(pidStr, lines[i]) ==>
      LockIds(pidStr, lines[..i + 1]) == LockIds(pidStr, lines[..i])
  {
    assert lines[..i + 1][..i] == lines[..i];
    assert LockIds(pidStr, lines[..i]) + [] == LockIds(pidStr, lines[..i]);
  }

  /** Dedup keeps exactly the elements of its input. */
  lemma {:induction false} DedupMembers(xs: seq<string>, x: string)
    ensures x in Dedup(xs) <==> x in xs
  {
    if xs != [] {
      var init := xs[..|xs| - 1];
      DedupMembers(init, x);
      assert xs == init + [xs[|xs| - 1]];
    }
  }

  /** Dedup's output holds no element twice. */
  lemma {:induction false} DedupNoDuplicates(xs: seq<string>)
    ensures NoDuplicates(Dedup(xs))
  {
    if xs != [] {
      DedupNoDuplicates(xs[..|xs| - 1]);
    }
  }

  /** The identifiers in LockIds are exactly the devices of attributed rows. */
  lemma {:induction false} LockIdsMembers(pidStr: string, lines: seq<string>, x: string)
    ensures x in LockIds(pidStr, lines) <==> exists k :: RowFor(pidStr, lines, k, x)
  {
    if lines != [] {
      var init := lines[..|lines| - 1];
      var last := lines[|lines| - 1];
      LockIdsMembers(pidStr, init, x);
      var tail := if RowQualifies(pidStr, last) then [RowDevice(last)] else [];
      assert LockIds(pidStr, lines) == LockIds(pidStr, init) + tail;
      assert x in LockIds(pidStr, init) + tail <==> x in LockIds(pidStr, init) || x in tail;
      RowForLast(pidStr, lines, init, x);
    }
  }

  /** A row attributed in lines is one attributed in all but the last line,
      or the last line itself. */
  lemma RowForLast(pidStr: string, lines: seq<string>, init: seq<string>, x: string)
    requires lines != [] && init == lines[..|lines| - 1]
    ensures (exists k :: RowFor(pidStr, lines, k, x)) <==>
      (exists k :: RowFor(pidStr, init, k, x))
      || (RowQualifies(pidStr, lines[|lines| - 1]) && RowDevice(lines[|lines| - 1]) == x)
  {
    var last := lines[|lines| - 1];
    if k :| RowFor(pidStr, init, k, x) {
      assert init[k] == lines[k];
      assert RowFor(pidStr, lines, k, x);
    }
    if RowQualifies(pidStr, last) && x == RowDevice(last) {
      assert RowFor(pidStr, lines, |init|, x);
    }
    if k :| RowFor(pidStr, lines, k, x) {
      if k < |init| {
        assert init[k] == lines[k];
        assert RowFor(pidStr, init, k, x);
      }
    }
  }

  /** Only the text "-1" is rejected as the sentinel, so a pid of -1 owns no
      row. */
  lemma {:induction false} SentinelOwnsNothing(lines: seq<string>)
    ensures LockIds(Itoa(-1), lines) == []
  {
    if lines != [] {
      SentinelOwnsNothing(lines[..|lines| - 1]);
    }
  }

  /** Attribution is row by row: the identifiers of two tables laid end to
      end are those of the first followed by those of the second. */
  lemma {:induction false} LockIdsAppend(pidStr: string, a: seq<string>, b: seq<string>)
    ensures LockIds(pidStr, a + b) == LockIds(pidStr, a) + LockIds(pidStr, b)
    decreases |b|
  {
    if b == [] {
      assert a + b == a;
    } else {
      var binit := b[..|b| - 1];
      LockIdsAppend(pidStr, a, binit);
      assert (a + b)[..|a + b| - 1] == a + binit;
      assert (a + b)[|a + b| - 1] == b[|b| - 1];
    }
  }

  /** Every element f the result lists ahead of g has an attributed row
      before each attributed row of g: first-seen order. */
  lemma {:induction false} DedupLockIdsOrder(pidStr: string, lines: seq<string>, i: int, j: int, k2: int)
    requires 0 <= i < j < |Dedup(LockIds(pidStr, lines))|
    requires RowFor(pidStr, lines, k2, Dedup(LockIds(pidStr, lines))[j])
    ensures exists k1 :: k1 < k2 && RowFor(pidStr, lines, k1, Dedup(LockIds(pidStr, lines))[i])
  {
    var init := lines[..|lines| - 1];
    var last := lines[|lines| - 1];
    var r := Dedup(LockIds(pidStr, lines));
    var q := LockIds(pidStr, init);
    var rInit := Dedup(q);
    assert LockIds(pidStr, lines) == q + (if RowQualifies(pidStr, last) then [RowDevice(last)] else []);
    assert rInit == r[..|rInit|] && |r| <= |rInit| + 1 by {
      if RowQualifies(pidStr, last) {
        assert (q + [RowDevice(last)])[..|q|] == q;
      } else {
        assert q + [] == q;
      }
    }
    if j < |rInit| {
      assert r[i] == rInit[i] && r[j] == rInit[j];
      if k2 < |init| {
        assert RowFor(pidStr, init, k2, rInit[j]);
        DedupLockIdsOrder(pidStr, init, i, j, k2);
        var k1 :| k1 < k2 && RowFor(pidStr, init, k1, rInit[i]);
        assert RowFor(pidStr, lines, k1, r[i]);
      } else {
        AttributedEarlier(pidStr, init, lines, r[i]);
      }
    } else {
      // r[j] is new in the last row, so that row is its only attributed row.
      assert r[j] !in rInit;
      DedupMembers(q, r[j]);
      LockIdsMembers(pidStr, init, r[j]);
      if k2 < |init| {
        assert RowFor(pidStr, init, k2, r[j]);
        assert false;
      }
      assert r[i] == rInit[i];
      AttributedEarlier(pidStr, init, lines, r[i]);
    }
  }

  /** An element already collected from the rows before the last one has an
      attributed row among them. */
  lemma AttributedEarlier(pidStr: string, init: seq<string>, lines: seq<string>, x: string)
    requires lines != [] && init == lines[..|lines| - 1]
    requires x in Dedup(LockIds(pidStr, init))
    ensures exists k1 :: k1 < |init| && RowFor(pidStr, lines, k1, x)
  {
    DedupMembers(LockIds(pidStr, init), x);
    LockIdsMembers(pidStr, init, x);
    var k1 :| RowFor(pidStr, init, k1, x);
    assert RowFor(pidStr, lines, k1, x);
  }

  /** Soundness and completeness of getLockedFiles: an identifier is listed
      exactly when some attributed row of the table carries it. */
  lemma LockedFilesMembers(pid: int, text: string, x: string)
    ensures x in LockedFiles(pid, Some(text)) ==> exists k :: RowFor(Itoa(pid), Split(text, '\n'), k, x)
    ensures (exists k :: RowFor(Itoa(pid), Split(text, '\n'), k, x)) ==> x in LockedFiles(pid, Some(text))
  {
    DedupMembers(LockIds(Itoa(pid), Split(text, '\n')), x);
    LockIdsMembers(Itoa(pid), Split(text, '\n'), x);
  }

  /** getLockedFiles never lists an identifier twice. */
  lemma LockedFilesNoDuplicates(pid: int, lockedFileData: Option<string>)
    ensures NoDuplicates(LockedFiles(pid, lockedFileData))
  {
    if lockedFileData.Some? {
      DedupNoDuplicates(LockIds(Itoa(pid), Split(lockedFileData.value, '\n')));
    }
  }

  /** getLockedFiles lists identifiers in the order of their first
      attributed rows: whatever row carries a later identifier, an earlier
      row carries each identifier listed before it. */
  lemma LockedFilesFirstSeenOrder(pid: int, text: string, i: int, j: int, k: int)
    requires 0 <= i < j < |LockedFiles(pid, Some(text))|
    requires RowFor(Itoa(pid), Split(text, '\n'), k, LockedFiles(pid, Some(text))[j])
    ensures exists k1 :: k1 < k && RowFor(Itoa(pid), Split(text, '\n'), k1, LockedFiles(pid, Some(text))[i])
  {
    DedupLockIdsOrder(Itoa(pid), Split(text, '\n'), i, j, k);
  }

  /** For pid -1 no lock is ever attributed. */
  lemma LockedFilesSentinelPid(lockedFileData: Option<string>)
    ensures LockedFiles(-1, lockedFileData) == []
  {
    if lockedFileData.Some? {
      SentinelOwnsNothing(Split(lockedFileData.value, '\n'));
    }
  }

  /** Empty rows and rows with fewer than eight fields contribute nothing:
      removing one leaves the result unchanged. */
  lemma ShortRowIgnored(pidStr: string, before: seq<string>, row: string, after: seq<string>)
    requires row == "" || |Fields(row)| < 8
    ensures Dedup(LockIds(pidStr, before + [row] + after)) == Dedup(LockIds(pidStr, before + after))
  {
    LockIdsAppend(pidStr, before + [row], after);
    LockIdsAppend(pidStr, before, [row]);
    LockIdsAppend(pidStr, before, after);
    assert LockIds(pidStr, [row]) == [] by {
      assert [row][..0] == [];
    }
    assert LockIds(pidStr, before) + [] == LockIds(pidStr, before);
  }

  // ---------------------------------------------------------------------
  // getWatchedDirs and GetFileContext: the relevance decision
  // ---------------------------------------------------------------------

  /** getWatchedDirs: not implemented by the system, always empty. */
  function WatchedDirs(pid: int): (r: seq<string>)
    ensures r == []
  {
    []
  }

  /** The descriptor usage as a percentage, computed exactly. */
  function UsagePercent(openFiles: nat, fileLimit: int): (r: real)
    requires fileLimit > 0
    ensures r >= 0.0
    ensures openFiles <= fileLimit ==> r <= 100.0
  {
    (openFiles as real) / (fileLimit as real) * 100.0
  }

  /** The relevance rule: report a snapshot when it lists a locked file, or
      when a positive limit is more than half used. */
  predicate IsRelevant(ctx: FileContext)
    ensures IsRelevant(ctx) ==> |ctx.lockedFiles| > 0 || (ctx.fileLimit > 0 && ctx.openFiles > 0)
  {
    || |ctx.lockedFiles| > 0
    || (ctx.fileLimit > 0 && ctx.openFiles > 0 && UsagePercent(ctx.openFiles, ctx.fileLimit) > 50.0)
  }

  /** Usage is over 50% exactly when twice the open count exceeds the limit. */
  lemma UsageOverHalf(openFiles: nat, fileLimit: int)
    requires fileLimit > 0
    ensures UsagePercent(openFiles, fileLimit) > 50.0 <==> 2 * openFiles > fileLimit
  {
    var o, l := openFiles as real, fileLimit as real;
    var q := o / l;
    assert q * l == o;
    assert (q - 0.5) * l == o - 0.5 * l;
    if 2 * openFiles > fileLimit {
      PositiveFactor(q - 0.5, l);
    } else {
      NonPositiveFactor(q - 0.5, l);
    }
  }

  lemma PositiveFactor(a: real, b: real)
    requires b > 0.0 && a * b > 0.0
    ensures a > 0.0
  {
  }

  lemma NonPositiveFactor(a: real, b: real)
    requires b > 0.0 && a * b <= 0.0
    ensures a <= 0.0
  {
  }

  /** The relevance rule in integers. */
  lemma RelevanceInIntegers(ctx: FileContext)
    ensures IsRelevant(ctx) <==>
      |ctx.lockedFiles| > 0 || (ctx.fileLimit > 0 && ctx.openFiles > 0 && 2 * ctx.openFiles > ctx.fileLimit)
  {
    if ctx.fileLimit > 0 {
      UsageOverHalf(ctx.openFiles, ctx.fileLimit);
    }
  }

  /** The boundary cases: 51 of 100 is reported, exactly 50% is not, a zero
      limit never is, and a held lock is whatever the usage. */
  lemma RelevanceBoundaries(openFiles: nat, lockedFiles: seq<string>)
    requires |lockedFiles| > 0
    ensures IsRelevant(FileContext(51, 100, [], []))
    ensures !IsRelevant(FileContext(50, 100, [], []))
    ensures !IsRelevant(FileContext(openFiles, 0, [], []))
    ensures IsRelevant(FileContext(0, 0, lockedFiles, []))
  {
  }

  /** The snapshot GetFileContext builds from the inputs. */
  function Snapshot(pid: int, fdEntries: Option<nat>, limitsData: Option<string>, lockedFileData: Option<string>): (r: FileContext)
    ensures fdEntries.None? ==> r.openFiles == 0 && r.fileLimit == 0
    ensures limitsData.None? ==> r.fileLimit == 0
    ensures r.watchedDirs == [] && NoDuplicates(r.lockedFiles)
    ensures lockedFileData.None? ==> r.lockedFiles == []
  {
    LockedFilesNoDuplicates(pid, lockedFileData);
    FileContext(
      if fdEntries.Some? then fdEntries.value else 0,
      if fdEntries.Some? && limitsData.Some? then SoftLimit(limitsData.value) else 0,
      LockedFiles(pid, lockedFileData),
      WatchedDirs(pid))
  }

  /** GetFileContext: the snapshot when it is relevant, otherwise None. */
  method GetFileContext(pid: int, fdEntries: Option<nat>, limitsData: Option<string>, lockedFileData: Option<string>)
    returns (r: Option<FileContext>)
    ensures var ctx := Snapshot(pid, fdEntries, limitsData, lockedFileData);
      r.Some? <==> (|ctx.lockedFiles| > 0 || (ctx.fileLimit > 0 && ctx.openFiles > 0 && 2 * ctx.openFiles > ctx.fileLimit))
    ensures r.Some? <==> IsRelevant(Snapshot(pid, fdEntries, limitsData, lockedFileData))
    ensures r.Some? ==> r.value == Snapshot(pid, fdEntries, limitsData, lockedFileData)
    ensures r.Some? ==> r.value.watchedDirs == [] && NoDuplicates(r.value.lockedFiles)
  {
    var ctx := FileContext(0, 0, [], []);
    var openFiles, fileLimit := GetOpenFileCount(fdEntries, limitsData);
    var lockedFiles := GetLockedFiles(pid, lockedFileData);
    ctx := ctx.(openFiles := openFiles, fileLimit := fileLimit);
    ctx := ctx.(lockedFiles := lockedFiles);
    ctx := ctx.(watchedDirs := WatchedDirs(pid));
    RelevanceInIntegers(ctx);
    LockedFilesNoDuplicates(pid, lockedFileData);
    if |ctx.lockedFiles| > 0 {
      return Some(ctx);
    }
    if ctx.fileLimit > 0 && ctx.openFiles > 0 {
      var usagePercent := UsagePercent(ctx.openFiles, ctx.fileLimit);
      if usagePercent > 50.0 {
        return Some(ctx);
      }
    }
    return None;
  }
}
