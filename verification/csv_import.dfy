/** The CSV bulk import of the dashboard (`handleCsvUpload`): the uploaded
    text is cut into lines and cells, the header line is dropped, and every
    remaining line with at least four cells is applied to the store in
    order, counting successes and errors. */
module CsvImport {
  import opened Wrappers
  import opened JsText
  import opened JsParseInt
  import opened Backend
  import PointsEditor

  /** One data line: its first four cells, trimmed, in the documented column
      order Email, Full Name, Mobile Number, Points. */
  datatype CsvRow = CsvRow(email: string, fullName: string, mobileNumber: string, points: string)

  /** A cell as parsing can produce it: trimmed and free of both separators. */
  predicate IsCleanCell(c: string)
  {
    IsTrimmed(c) && ',' !in c && '\n' !in c
  }

  predicate IsCleanRow(row: CsvRow)
  {
    IsCleanCell(row.email) && IsCleanCell(row.fullName) && IsCleanCell(row.mobileNumber) && IsCleanCell(row.points)
  }

  /** The cells of `row.split(',')` are trimmed; only the first four are read. */
  function RowOfFields(fields: seq<string>): CsvRow
    requires |fields| >= 4
  {
    CsvRow(Trim(fields[0]), Trim(fields[1]), Trim(fields[2]), Trim(fields[3]))
  }

  /** The data lines, each split on commas, those with fewer than four cells
      left out. */
  function ParseLines(lines: seq<string>): (rows: seq<CsvRow>)
    ensures |rows| <= |lines|
  {
    if lines == [] then []
    else
      var fields := Split(lines[0], ',');
      var rest := ParseLines(lines[1..]);
      if |fields| >= 4 then [RowOfFields(fields)] + rest else rest
  }

  /** Lines without a newline parse to clean rows. */
  lemma {:induction false} ParseLinesClean(lines: seq<string>)
    requires forall i :: 0 <= i < |lines| ==> '\n' !in lines[i]
    ensures forall i :: 0 <= i < |ParseLines(lines)| ==> IsCleanRow(ParseLines(lines)[i])
    decreases |lines|
  {
    if lines != [] {
      ParseLinesClean(lines[1..]);
      if |Split(lines[0], ',')| >= 4 {
        CleanRowOfLine(lines[0]);
      }
    }
  }

  lemma CleanRowOfLine(line: string)
    requires |Split(line, ',')| >= 4
    ensures '\n' !in line ==> IsCleanRow(RowOfFields(Split(line, ',')))
  {
    var fields := Split(line, ',');
    if '\n' !in line {
      SplitAvoids(line, ',', '\n');
      SplitAvoids(line, ',', ',');
      CleanCellOfField(fields[0]);
      CleanCellOfField(fields[1]);
      CleanCellOfField(fields[2]);
      CleanCellOfField(fields[3]);
    }
  }

  lemma CleanCellOfField(field: string)
    requires ',' !in field && '\n' !in field
    ensures IsCleanCell(Trim(field))
  {
    TrimAvoids(field, ',');
    TrimAvoids(field, '\n');
  }

  /** `text.split('\n').map(row => row.split(','))`, the header dropped by
      `slice(1)` and the short lines by the `length >= 4` filter. */
  function ParseCsv(text: string): (rows: seq<CsvRow>)
    ensures |rows| <= |Split(text, '\n')| - 1
  {
    ParseLines(Split(text, '\n')[1..])
  }

  /** Every parsed cell is trimmed and holds neither a comma nor a newline. */
  lemma ParseCsvClean(text: string)
    ensures forall i :: 0 <= i < |ParseCsv(text)| ==> IsCleanRow(ParseCsv(text)[i])
  {
    var lines := Split(text, '\n');
    SplitAvoids(text, '\n', '\n');
    assert forall i :: 0 <= i < |lines[1..]| ==> lines[1..][i] == lines[i + 1];
    ParseLinesClean(lines[1..]);
  }

  lemma {:induction false} ParseLinesAppend(a: seq<string>, b: seq<string>)
    ensures ParseLines(a + b) == ParseLines(a) + ParseLines(b)
    decreases |a|
  {
    if a == [] {
      assert a + b == b;
    } else {
      assert (a + b)[1..] == a[1..] + b;
      ParseLinesAppend(a[1..], b);
    }
  }

  /** The first line is never data, whatever it holds. */
  lemma HeaderIsDiscarded(header: string, other: string, rest: string)
    requires '\n' !in header && '\n' !in other
    ensures ParseCsv(header) == []
    ensures ParseCsv(header + "\n" + rest) == ParseCsv(other + "\n" + rest)
  {
    SplitWithoutSeparator(header, '\n');
    SplitWithoutSeparator(other, '\n');
    SplitAround(header, '\n', rest);
    SplitAround(other, '\n', rest);
    assert (Split(header, '\n') + Split(rest, '\n'))[1..] == Split(rest, '\n');
    assert (Split(other, '\n') + Split(rest, '\n'))[1..] == Split(rest, '\n');
  }

  /** A line with fewer than four cells between two line breaks contributes
      nothing, wherever it sits after the header. */
  lemma ShortLineIsDropped(before: string, line: string, after: string)
    requires '\n' !in line
    requires |Split(line, ',')| < 4
    ensures ParseCsv(before + "\n" + line + "\n" + after) == ParseCsv(before + "\n" + after)
  {
    var lb := Split(before, '\n');
    var la := Split(after, '\n');
    LinesAround(before, line, after);
    LinesBetween(before, after);
    DataLines(before + "\n" + line + "\n" + after, lb, [line] + la);
    DataLines(before + "\n" + after, lb, la);
    ShortLineParsesToNothing(lb[1..], line, la);
  }

  /** The same for the last line, which has no newline after it: in
      particular the empty line that `split` yields after a final newline. */
  lemma ShortLastLineIsDropped(before: string, line: string)
    requires '\n' !in line
    requires |Split(line, ',')| < 4
    ensures ParseCsv(before + "\n" + line) == ParseCsv(before)
  {
    var lb := Split(before, '\n');
    LinesBetween(before, line);
    SplitWithoutSeparator(line, '\n');
    DataLines(before + "\n" + line, lb, [line]);
    ShortLineAlone(line);
    ParseLinesAppend(lb[1..], [line]);
    assert lb[1..] + [] == lb[1..];
  }

  /** The rows of a file whose lines are `first + rest`, `first` holding the
      header. */
  lemma DataLines(text: string, first: seq<string>, rest: seq<string>)
    requires |first| >= 1
    requires Split(text, '\n') == first + rest
    ensures ParseCsv(text) == ParseLines(first[1..] + rest)
  {
    assert (first + rest)[1..] == first[1..] + rest;
  }

  lemma LinesBetween(before: string, after: string)
    ensures Split(before + "\n" + after, '\n') == Split(before, '\n') + Split(after, '\n')
  {
    assert before + "\n" + after == before + ['\n'] + after;
    SplitAround(before, '\n', after);
  }

  lemma ShortLineParsesToNothing(a: seq<string>, line: string, b: seq<string>)
    requires |Split(line, ',')| < 4
    ensures ParseLines(a + ([line] + b)) == ParseLines(a + b)
  {
    ShortLineAlone(line);
    ParseLinesAppend([line], b);
    ParseLinesAppend(a, [line] + b);
    ParseLinesAppend(a, b);
  }

  lemma ShortLineAlone(line: string)
    requires |Split(line, ',')| < 4
    ensures ParseLines([line]) == []
  {
    assert [line][1..] == [];
  }

  lemma LinesAround(before: string, line: string, after: string)
    requires '\n' !in line
    ensures Split(before + "\n" + line + "\n" + after, '\n') == Split(before, '\n') + ([line] + Split(after, '\n'))
  {
    var tail := line + ['\n'] + after;
    SplitWithoutSeparator(line, '\n');
    SplitAround(line, '\n', after);
    assert Split(tail, '\n') == [line] + Split(after, '\n');
    var whole := before + ['\n'] + tail;
    assert before + "\n" + line + "\n" + after == whole;
    SplitAround(before, '\n', tail);
    assert Split(whole, '\n') == Split(before, '\n') + ([line] + Split(after, '\n'));
  }

  /** Only the first four cells are read: cells after the fourth change
      nothing. */
  lemma ExtraCellsIgnored(line: string, extra: string)
    requires |Split(line, ',')| >= 4
    ensures ParseLines([line + [','] + extra]) == ParseLines([line])
  {
    SplitAround(line, ',', extra);
    var f := Split(line, ',');
    var g := Split(line + [','] + extra, ',');
    assert g[0] == f[0] && g[1] == f[1] && g[2] == f[2] && g[3] == f[3];
    assert [line + [','] + extra][1..] == [];
    assert [line][1..] == [];
  }

  /** A row written back as one CSV line. */
  function RenderRow(row: CsvRow): string
  {
    Join([row.email, row.fullName, row.mobileNumber, row.points], ',')
  }

  function RenderLines(rows: seq<CsvRow>): (lines: seq<string>)
    ensures |lines| == |rows|
  {
    if rows == [] then [] else [RenderRow(rows[0])] + RenderLines(rows[1..])
  }

  /** A file in the documented layout: a header line, then one line per row. */
  function Render(header: string, rows: seq<CsvRow>): string
  {
    Join([header] + RenderLines(rows), '\n')
  }

  lemma ParseRenderRow(row: CsvRow)
    requires IsCleanRow(row)
    ensures '\n' !in RenderRow(row)
    ensures ParseLines([RenderRow(row)]) == [row]
  {
    var cells := [row.email, row.fullName, row.mobileNumber, row.points];
    JoinAvoids(cells, ',', '\n');
    SplitJoin(cells, ',');
    TrimOfTrimmed(row.email);
    TrimOfTrimmed(row.fullName);
    TrimOfTrimmed(row.mobileNumber);
    TrimOfTrimmed(row.points);
    assert [RenderRow(row)][1..] == [];
  }

  lemma {:induction false} ParseRenderLines(rows: seq<CsvRow>)
    requires forall i :: 0 <= i < |rows| ==> IsCleanRow(rows[i])
    ensures ParseLines(RenderLines(rows)) == rows
    decreases |rows|
  {
    if rows != [] {
      ParseRenderRow(rows[0]);
      ParseRenderLines(rows[1..]);
      ParseLinesAppend([RenderRow(rows[0])], RenderLines(rows[1..]));
      assert rows == [rows[0]] + rows[1..];
    }
  }

  /** Clean rows render to lines without a newline. */
  lemma RenderLinesAvoidNewline(rows: seq<CsvRow>)
    requires forall i :: 0 <= i < |rows| ==> IsCleanRow(rows[i])
    ensures forall i :: 0 <= i < |rows| ==> '\n' !in RenderLines(rows)[i]
  {
    forall i | 0 <= i < |rows|
      ensures '\n' !in RenderLines(rows)[i]
    {
      RenderLinesIndex(rows, i);
      ParseRenderRow(rows[i]);
    }
  }

  lemma {:induction false} RenderLinesIndex(rows: seq<CsvRow>, i: nat)
    requires i < |rows|
    ensures RenderLines(rows)[i] == RenderRow(rows[i])
    decreases i
  {
    if i > 0 {
      RenderLinesIndex(rows[1..], i - 1);
    }
  }

  /** Round trip: parsing a rendered file gives back its rows, whatever the
      header line says, as long as every cell is one the parser could produce. */
  lemma ParseRender(header: string, rows: seq<CsvRow>)
    requires '\n' !in header
    requires forall i :: 0 <= i < |rows| ==> IsCleanRow(rows[i])
    ensures ParseCsv(Render(header, rows)) == rows
  {
    ParseRenderLines(rows);
    RenderLinesAvoidNewline(rows);
    var lines := [header] + RenderLines(rows);
    assert forall i :: 0 <= i < |lines| ==> '\n' !in lines[i] by {
      forall i | 0 <= i < |lines|
        ensures '\n' !in lines[i]
      {
        if i > 0 {
          assert lines[i] == RenderLines(rows)[i - 1];
        }
      }
    }
    SplitJoin(lines, '\n');
    assert lines[1..] == RenderLines(rows);
  }

  /** The round trip also holds for a file that ends in a newline. */
  lemma ParseRenderTrailingNewline(header: string, rows: seq<CsvRow>)
    requires '\n' !in header
    requires forall i :: 0 <= i < |rows| ==> IsCleanRow(rows[i])
    ensures ParseCsv(Render(header, rows) + "\n") == rows
  {
    ParseRender(header, rows);
    assert Render(header, rows) + "\n" == Render(header, rows) + "\n" + [];
    ShortLastLineIsDropped(Render(header, rows), []);
  }

  /** The fate of the three remote calls a row can issue: the profile lookup,
      the profile update and the points update. */
  datatype RowEnv = RowEnv(lookup: CallOutcome, profileWrite: CallOutcome, pointsWrite: CallOutcome)

  const Reliable := RowEnv(Done, Done, Done)

  /** A data row together with what the backend does when it is processed. */
  datatype Attempt = Attempt(row: CsvRow, env: RowEnv)

  /** What the loop threads from row to row: the store and the two counters. */
  datatype Tally = Tally(store: Store, successCount: nat, errorCount: nat)

  /** `value || null`: the empty string becomes null. */
  function NullIfEmpty(s: string): (r: Option<string>)
    ensures r.None? <==> s == []
    ensures r.Some? ==> r.value == s
  {
    if s == [] then None else Some(s)
  }

  /** `if (points) { parseInt(points) ... if (!isNaN(...)) }`: the amount to
      write, if any. The guard on the empty cell changes nothing, since
      `parseInt` of the empty string is already `NaN`. */
  function PointsCell(cell: string): (r: Option<int>)
    ensures cell == [] ==> r == None
    ensures r == ParseInt(cell)
  {
    if cell == [] then None else ParseInt(cell)
  }

  /** One pass of the loop body. An empty email is skipped; a lookup that
      fails or finds no unique profile is an error; otherwise the contact
      fields are overwritten and, when the points cell parses, both balances
      are set to it. The results of the two writes are not inspected: only a
      rejected promise (caught by the `try`) turns the row into an error. */
  function ImportRow(t: Tally, a: Attempt): (r: Tally)
    ensures a.row.email == [] ==> r == t
    ensures a.row.email != [] ==> r.successCount + r.errorCount == t.successCount + t.errorCount + 1
    ensures r.successCount >= t.successCount && r.errorCount >= t.errorCount
    ensures SameEmails(t.store, r.store)
    ensures FindByEmail(t.store.profiles, a.row.email).None? ==> r.store == t.store && r.successCount == t.successCount
    ensures FindByEmail(t.store.profiles, a.row.email).Some? ==>
              AgreeExcept(t.store, r.store, FindByEmail(t.store.profiles, a.row.email).value)
  {
    var row := a.row;
    if row.email == [] then t
    else if a.env.lookup != Done then t.(errorCount := t.errorCount + 1)
    else
      match FindByEmail(t.store.profiles, row.email)
      case None => t.(errorCount := t.errorCount + 1)
      case Some(id) =>
        if a.env.profileWrite == Thrown then t.(errorCount := t.errorCount + 1)
        else
          var s1 := if a.env.profileWrite == Done
                    then SetContact(t.store, id, NullIfEmpty(row.fullName), NullIfEmpty(row.mobileNumber))
                    else t.store;
          match PointsCell(row.points)
          case None => Tally(s1, t.successCount + 1, t.errorCount)
          case Some(n) =>
            if a.env.pointsWrite == Thrown then Tally(s1, t.successCount, t.errorCount + 1)
            else
              var s2 := if a.env.pointsWrite == Done then SetBalance(s1, id, Balance(n, n)) else s1;
              Tally(s2, t.successCount + 1, t.errorCount)
  }

  /** The number of rows the loop does not skip. */
  function WithEmail(attempts: seq<Attempt>): (n: nat)
    ensures n <= |attempts|
  {
    if attempts == [] then 0
    else (if attempts[0].row.email == [] then 0 else 1) + WithEmail(attempts[1..])
  }

  /** The `for (const row of dataRows)` loop as a fold: every row is
      processed, one after the other, whatever happened to the ones before. */
  function ImportAll(t: Tally, attempts: seq<Attempt>): (r: Tally)
    ensures r.successCount + r.errorCount == t.successCount + t.errorCount + WithEmail(attempts)
    ensures r.successCount >= t.successCount && r.errorCount >= t.errorCount
    ensures SameEmails(t.store, r.store)
    decreases |attempts|
  {
    if attempts == [] then t else ImportAll(ImportRow(t, attempts[0]), attempts[1..])
  }

  /** Pairs each parsed row with its backend behaviour; rows beyond `envs`
      meet a backend where every call completes. */
  function Attempts(rows: seq<CsvRow>, envs: seq<RowEnv>): (a: seq<Attempt>)
    ensures |a| == |rows|
    ensures forall i :: 0 <= i < |a| ==> a[i].row == rows[i]
    ensures forall i :: 0 <= i < |a| ==> a[i].env == if i < |envs| then envs[i] else Reliable
  {
    seq(|rows|, i requires 0 <= i < |rows| => Attempt(rows[i], if i < |envs| then envs[i] else Reliable))
  }

  /** The whole upload: both counters start at zero, and together they never
      exceed the number of data lines that survived the filter. */
  function ImportCsv(text: string, store: Store, envs: seq<RowEnv>): (r: Tally)
    ensures r.successCount + r.errorCount <= |ParseCsv(text)| <= |Split(text, '\n')| - 1
    ensures SameEmails(store, r.store)
  {
    ImportAll(Tally(store, 0, 0), Attempts(ParseCsv(text), envs))
  }

  /** The body of the loop of `handleCsvUpload` statement by statement: the
      store and the two counters are updated in place, and `caught` marks a
      row whose `try` block was left by a thrown call. It does what the
      fold step `ImportRow` does. */
  method ProcessRow(store: Store, successCount: nat, errorCount: nat, row: CsvRow, env: RowEnv)
    returns (store': Store, successCount': nat, errorCount': nat)
    ensures Tally(store', successCount', errorCount') == ImportRow(Tally(store, successCount, errorCount), Attempt(row, env))
  {
    store', successCount', errorCount' := store, successCount, errorCount;
    if row.email != [] {
      var caught := false;
      if env.lookup == Thrown {
        caught := true;
      } else {
        var profileData := if env.lookup == Done then FindByEmail(store.profiles, row.email) else None;
        if profileData.Some? {
          var id := profileData.value;
          if env.profileWrite == Thrown {
            caught := true;
          } else {
            if env.profileWrite == Done {
              store' := SetContact(store', id, NullIfEmpty(row.fullName), NullIfEmpty(row.mobileNumber));
            }
            if row.points != [] {
              var pointsNum := ParseInt(row.points);
              if pointsNum.Some? {
                if env.pointsWrite == Thrown {
                  caught := true;
                } else if env.pointsWrite == Done {
                  store' := SetBalance(store', id, Balance(pointsNum.value, pointsNum.value));
                }
              }
            }
            if !caught {
              successCount' := successCount' + 1;
            }
          }
        } else {
          errorCount' := errorCount' + 1;
        }
      }
      if caught {
        errorCount' := errorCount' + 1;
      }
    }
  }

  /** The `for (const row of dataRows)` loop, the counters starting at zero:
      it computes the fold `ImportCsv`. */
  method RunImport(text: string, store: Store, envs: seq<RowEnv>) returns (final: Store, successCount: nat, errorCount: nat)
    ensures Tally(final, successCount, errorCount) == ImportCsv(text, store, envs)
    ensures successCount + errorCount <= |ParseCsv(text)|
  {
    var dataRows := ParseCsv(text);
    var attempts := Attempts(dataRows, envs);
    final, successCount, errorCount := store, 0, 0;
    for i := 0 to |attempts|
      invariant ImportAll(Tally(final, successCount, errorCount), attempts[i..]) == ImportAll(Tally(store, 0, 0), attempts)
    {
      assert attempts[i..][1..] == attempts[i + 1..];
      final, successCount, errorCount := ProcessRow(final, successCount, errorCount, attempts[i].row, attempts[i].env);
    }
    assert attempts[|attempts|..] == [];
  }

  /** A row whose email names exactly one profile, with every call
      completing: one more success, the contact fields replaced (an empty
      cell becoming null), and, in replace mode, both balances set to the
      points cell when it parses and left alone when it does not. */
  lemma ImportRowMatched(t: Tally, row: CsvRow, id: Id)
    requires FindByEmail(t.store.profiles, row.email) == Some(id)
    requires row.email != []
    ensures var r := ImportRow(t, Attempt(row, Reliable));
      && r.successCount == t.successCount + 1 && r.errorCount == t.errorCount
      && r.store.profiles[id] == Profile(row.email, NullIfEmpty(row.fullName), NullIfEmpty(row.mobileNumber))
      && (PointsCell(row.points).None? ==> r.store.balances == t.store.balances)
      && (PointsCell(row.points).Some? && id in t.store.balances ==>
            var n := PointsCell(row.points).value;
            r.store.balances[id] == Balance(n, n))
  {
  }

  /** The results of the two writes are never looked at: a matched row whose
      updates both come back with an error changes nothing and still counts
      as a success. */
  lemma RejectedWritesStillCountAsSuccess(t: Tally, row: CsvRow, id: Id)
    requires FindByEmail(t.store.profiles, row.email) == Some(id)
    requires row.email != []
    ensures ImportRow(t, Attempt(row, RowEnv(Done, Rejected, Rejected))) == t.(successCount := t.successCount + 1)
  {
  }

  /** A row that throws after its profile update keeps that update, writes no
      points and counts as an error. */
  lemma ThrowAfterProfileUpdate(t: Tally, row: CsvRow, id: Id)
    requires FindByEmail(t.store.profiles, row.email) == Some(id)
    requires row.email != [] && PointsCell(row.points).Some?
    ensures var r := ImportRow(t, Attempt(row, RowEnv(Done, Done, Thrown)));
      && r.errorCount == t.errorCount + 1 && r.successCount == t.successCount
      && r.store.balances == t.store.balances
      && r.store.profiles[id] == Profile(row.email, NullIfEmpty(row.fullName), NullIfEmpty(row.mobileNumber))
  {
  }

  /** A row whose lookup throws is one more error, and the loop carries on
      with the next row from the same store. */
  lemma ThrownLookupDoesNotStopLaterRows(t: Tally, row: CsvRow, writes: CallOutcome, rest: seq<Attempt>)
    requires row.email != []
    ensures ImportAll(t, [Attempt(row, RowEnv(Thrown, writes, writes))] + rest)
         == ImportAll(t.(errorCount := t.errorCount + 1), rest)
  {
    var a := Attempt(row, RowEnv(Thrown, writes, writes));
    var all := [a] + rest;
    assert ImportRow(t, a) == t.(errorCount := t.errorCount + 1);
    assert all[0] == a && all[1..] == rest;
    assert ImportAll(t, all) == ImportAll(ImportRow(t, a), rest);
  }

  /** Processing `a` and then `b` is processing `a + b`: the loop never stops
      early, so a failing row leaves the later rows to run as they would have. */
  lemma {:induction false} ImportAllAppend(t: Tally, a: seq<Attempt>, b: seq<Attempt>)
    ensures ImportAll(t, a + b) == ImportAll(ImportAll(t, a), b)
    decreases |a|
  {
    if a != [] {
      assert (a + b)[0] == a[0];
      assert (a + b)[1..] == a[1..] + b;
      ImportAllAppend(ImportRow(t, a[0]), a[1..], b);
    } else {
      assert a + b == b;
    }
  }

  /** No row names the email of customer `id` (or `id` has no profile). */
  ghost predicate Untargeted(store: Store, attempts: seq<Attempt>, id: Id)
  {
    id in store.profiles ==> forall i :: 0 <= i < |attempts| ==> attempts[i].row.email != store.profiles[id].email
  }

  /** Only the customers the file names can change: the rows of every other
      customer come out of the import exactly as they went in. */
  lemma {:induction false} ImportLeavesOthersAlone(t: Tally, attempts: seq<Attempt>, id: Id)
    requires Untargeted(t.store, attempts, id)
    ensures var r := ImportAll(t, attempts).store;
      && (id in t.store.profiles ==> r.profiles[id] == t.store.profiles[id])
      && (id in t.store.balances ==> r.balances[id] == t.store.balances[id])
    decreases |attempts|
  {
    if attempts != [] {
      var a := attempts[0];
      var next := ImportRow(t, a);
      var found := FindByEmail(t.store.profiles, a.row.email);
      if found == Some(id) {
        assert false;
      }
      assert Untargeted(next.store, attempts[1..], id) by {
        if id in next.store.profiles {
          assert next.store.profiles[id].email == t.store.profiles[id].email;
          forall i | 0 <= i < |attempts[1..]|
            ensures attempts[1..][i].row.email != next.store.profiles[id].email
          {
            assert attempts[1..][i] == attempts[i + 1];
          }
        }
      }
      ImportLeavesOthersAlone(next, attempts[1..], id);
    }
  }

  /** Every row names exactly one existing profile and meets a backend whose
      calls all complete. */
  ghost predicate AllMatchedAndReliable(store: Store, attempts: seq<Attempt>)
  {
    forall i :: 0 <= i < |attempts| ==>
      && attempts[i].env == Reliable
      && attempts[i].row.email != []
      && FindByEmail(store.profiles, attempts[i].row.email).Some?
  }

  /** Rows that all match and all go through are all counted as successes. */
  lemma {:induction false} ImportAllMatched(t: Tally, attempts: seq<Attempt>)
    requires AllMatchedAndReliable(t.store, attempts)
    ensures ImportAll(t, attempts).successCount == t.successCount + |attempts|
    ensures ImportAll(t, attempts).errorCount == t.errorCount
    decreases |attempts|
  {
    if attempts != [] {
      var next := ImportRow(t, attempts[0]);
      ImportRowMatched(t, attempts[0].row, FindByEmail(t.store.profiles, attempts[0].row.email).value);
      forall i | 0 <= i < |attempts[1..]|
        ensures FindByEmail(next.store.profiles, attempts[1..][i].row.email).Some?
      {
        assert attempts[1..][i] == attempts[i + 1];
        FindByEmailSameEmails(t.store, next.store, attempts[i + 1].row.email);
      }
      ImportAllMatched(next, attempts[1..]);
    }
  }

  /** A file with a header line and `N` well-formed rows, each naming exactly
      one existing profile, imported against a backend whose calls all
      complete, reports `N` successes and no error, whether or not the file
      ends in a newline. */
  lemma ImportWellFormedFile(header: string, rows: seq<CsvRow>, store: Store)
    requires '\n' !in header
    requires forall i :: 0 <= i < |rows| ==> IsCleanRow(rows[i])
    requires forall i :: 0 <= i < |rows| ==> rows[i].email != [] && FindByEmail(store.profiles, rows[i].email).Some?
    ensures ImportCsv(Render(header, rows), store, []).successCount == |rows|
    ensures ImportCsv(Render(header, rows), store, []).errorCount == 0
    ensures ImportCsv(Render(header, rows) + "\n", store, []).successCount == |rows|
    ensures ImportCsv(Render(header, rows) + "\n", store, []).errorCount == 0
  {
    ParseRender(header, rows);
    ParseRenderTrailingNewline(header, rows);
    var attempts := Attempts(rows, []);
    assert AllMatchedAndReliable(store, attempts);
    ImportAllMatched(Tally(store, 0, 0), attempts);
  }

  /** Replace versus accumulate: for a customer whose email is unique and whose
      snapshot is current, the same amount `n` typed into the editor is added
      to both balances (the lifetime total only when positive), while the
      same amount in the points cell of an import overwrites both. */
  lemma ReplaceVersusAccumulate(store: Store, c: CustomerData, amount: string, n: int)
    requires IsCurrent(store, c)
    requires UniqueMatch(store.profiles, c.email, c.userId)
    requires c.email != []
    requires ParseInt(amount) == Some(n)
    ensures var edited := PointsEditor.UpdatePoints(store, Some(c), amount, Done).0;
      edited.balances[c.userId] == Balance(c.points + n, c.totalEarned + (if n > 0 then n else 0))
    ensures var imported := ImportRow(Tally(store, 0, 0), Attempt(CsvRow(c.email, [], [], amount), Reliable));
      imported.store.balances[c.userId] == Balance(n, n)
  {
    PointsEditor.AdjustFromCurrentSnapshot(store, c, amount, n);
    ImportRowMatched(Tally(store, 0, 0), CsvRow(c.email, [], [], amount), c.userId);
  }

  /** So an import can lower a lifetime total the editor only ever raises:
      importing `n` below the current total leaves the total at `n`. */
  lemma ImportCanLowerTotalEarned(store: Store, c: CustomerData, n: int)
    requires IsCurrent(store, c)
    requires UniqueMatch(store.profiles, c.email, c.userId)
    requires c.email != []
    requires n < c.totalEarned
    ensures var imported := ImportRow(Tally(store, 0, 0), Attempt(CsvRow(c.email, [], [], IntToDecimal(n)), Reliable));
      imported.store.balances[c.userId].totalEarned < store.balances[c.userId].totalEarned
  {
    ParseIntDecimal(n, []);
    assert IntToDecimal(n) + [] == IntToDecimal(n);
    ImportRowMatched(Tally(store, 0, 0), CsvRow(c.email, [], [], IntToDecimal(n)), c.userId);
  }
}
