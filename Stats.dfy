/** vOwnTaskGetRunTimeStats: the table of absolute run times the Top task sends over the
    UART, built with strcat into the caller's buffer. */
module Stats {
  import opened Common
  import opened Text

  /** The part of a TaskStatus_t the report reads: the task's name and its run-time
      counter (a 32-bit unsigned value). */
  datatype TaskStatus = TaskStatus(name: string, runTime: nat)

  /** The three fixed header lines. */
  const RuleLine: string := "====================================\n"
  const TitleLine: string := "Task\tAbs Time\n"
  const StarLine: string := "************************************\n"
  const Header: string := RuleLine + TitleLine + StarLine

  /** One row: the name, a tab, the counter in decimal as longToChar writes it, a newline. */
  function TaskLine(t: TaskStatus): (l: string)
    ensures |t.name| < |l| && l[..|t.name|] == t.name && l[|t.name|] == '\t'
  {
    t.name + "\t" + Numeral(t.runTime, 10) + "\n"
  }

  /** The rows for the tasks, in snapshot order. */
  function Lines(tasks: seq<TaskStatus>): string
  {
    if tasks == [] then [] else TaskLine(tasks[0]) + Lines(tasks[1..])
  }

  /** The text the buffer holds when the function returns: nothing when the status array
      could not be allocated or the total run time is below 100 ticks, otherwise the
      header followed by one row per task. */
  function Report(tasks: seq<TaskStatus>, total: nat, arrayOk: bool): (r: string)
    ensures r != [] ==> |Header| <= |r| && r[..|Header|] == Header
  {
    if !arrayOk || total / 100 == 0 then [] else Header + Lines(tasks)
  }

  /** A name the report can carry unambiguously: no terminator, tab or newline in it. */
  predicate PlainName(name: string)
  {
    Nul !in name && '\t' !in name && '\n' !in name
  }

  // ---------------------------------------------------------------------------
  // Reading a report back
  // ---------------------------------------------------------------------------

  /** The index of the first c in s, or |s| when there is none. */
  function Find(s: string, c: char): (k: nat)
    ensures k <= |s| && c !in s[..k] && (k < |s| ==> s[k] == c)
  {
    if s == [] then 0 else if s[0] == c then 0 else 1 + Find(s[1..], c)
  }

  /** A row without its newline: the name up to the first tab, the counter after it. */
  function ParseLine(l: string): Option<TaskStatus>
  {
    var k := Find(l, '\t');
    if k == |l| then None else Some(TaskStatus(l[..k], ParseDigits(l[k + 1..], 10)))
  }

  /** The rows of a text, each ended by a newline. */
  function ParseLines(s: string): Option<seq<TaskStatus>>
    decreases |s|
  {
    if s == [] then Some([])
    else
      var k := Find(s, '\n');
      if k == |s| then None
      else match (ParseLine(s[..k]), ParseLines(s[k + 1..]))
        case (Some(t), Some(rest)) => Some([t] + rest)
        case _ => None
  }

  /** A report read back: the header, then the rows. */
  function ParseReport(s: string): Option<seq<TaskStatus>>
  {
    if |s| < |Header| || s[..|Header|] != Header then None else ParseLines(s[|Header|..])
  }

  lemma {:induction false} FindAt(s: string, c: char, k: nat)
    requires k < |s| && s[k] == c && c !in s[..k]
    ensures Find(s, c) == k
    decreases k
  {
    if k > 0 {
      assert s[0] == s[..k][0];
      assert s[1..][..k - 1] == s[..k][1..];
      FindAt(s[1..], c, k - 1);
    }
  }

  /** A row reads back as the task it was written from. */
  lemma ParseTaskLine(t: TaskStatus)
    requires PlainName(t.name)
    ensures var l := TaskLine(t);
      l[|l| - 1] == '\n' && '\n' !in l[..|l| - 1] && ParseLine(l[..|l| - 1]) == Some(t)
  {
    var digits := Numeral(t.runTime, 10);
    DecimalText(t.runTime);
    var l := TaskLine(t);
    var body := t.name + "\t" + digits;
    assert l == body + "\n";
    assert l[..|l| - 1] == body;
    assert body[..|t.name|] == t.name && body[|t.name|] == '\t';
    FindAt(body, '\t', |t.name|);
    assert body[|t.name| + 1..] == digits;
    ParseNumeral(t.runTime, 10);
  }

  /** The rows read back as the tasks they were written from, in the same order. */
  lemma {:induction false} ParseLinesOfLines(tasks: seq<TaskStatus>)
    requires forall i :: 0 <= i < |tasks| ==> PlainName(tasks[i].name)
    ensures ParseLines(Lines(tasks)) == Some(tasks)
    decreases |tasks|
  {
    if tasks != [] {
      var t, rest := tasks[0], tasks[1..];
      var l, more := TaskLine(t), Lines(rest);
      PlainTail(tasks);
      ParseLinesOfLines(rest);
      assert ParseLines(l + more) == Some([t] + rest) by {
        ParseTaskLine(t);
        ParseLinesCons(l, more, t, rest);
      }
      assert ParseLines(Lines(tasks)) == Some(tasks) by {
        assert Lines(tasks) == l + more && tasks == [t] + rest;
      }
    }
  }

  lemma PlainTail(tasks: seq<TaskStatus>)
    requires tasks != [] && forall i :: 0 <= i < |tasks| ==> PlainName(tasks[i].name)
    ensures forall i :: 0 <= i < |tasks[1..]| ==> PlainName(tasks[1..][i].name)
  {
    forall i | 0 <= i < |tasks[1..]| ensures PlainName(tasks[1..][i].name) {
      assert tasks[1..][i] == tasks[i + 1];
    }
  }

  /** A row in front of a text is read first, then the text. */
  lemma ParseLinesCons(l: string, more: string, t: TaskStatus, ts: seq<TaskStatus>)
    requires |l| >= 1 && l[|l| - 1] == '\n' && '\n' !in l[..|l| - 1]
    requires ParseLine(l[..|l| - 1]) == Some(t)
    requires ParseLines(more) == Some(ts)
    ensures ParseLines(l + more) == Some([t] + ts)
  {
    var s, k := l + more, |l| - 1;
    assert s[..k] == l[..k] && s[k] == '\n';
    FindAt(s, '\n', k);
    assert s[k + 1..] == more;
  }

  /** Whenever the report is not empty, it is the header followed by exactly the snapshot's
      tasks, names and counters, in order. */
  lemma ReportRoundTrip(tasks: seq<TaskStatus>, total: nat, arrayOk: bool)
    requires forall i :: 0 <= i < |tasks| ==> PlainName(tasks[i].name)
    requires arrayOk && total >= 100
    ensures ParseReport(Report(tasks, total, arrayOk)) == Some(tasks)
  {
    var r := Report(tasks, total, arrayOk);
    assert r[..|Header|] == Header && r[|Header|..] == Lines(tasks);
    ParseLinesOfLines(tasks);
  }

  /** The report is empty exactly when the allocation failed or the total is below 100. */
  lemma ReportEmpty(tasks: seq<TaskStatus>, total: nat, arrayOk: bool)
    ensures Report(tasks, total, arrayOk) == [] <==> !arrayOk || total < 100
  {
    if arrayOk && total >= 100 {
      assert |Header| == 88;
    }
  }

  lemma {:induction false} LinesAppend(tasks: seq<TaskStatus>, t: TaskStatus)
    ensures Lines(tasks + [t]) == Lines(tasks) + TaskLine(t)
    decreases |tasks|
  {
    if tasks == [] {
      assert Lines([t]) == TaskLine(t) + Lines([]);
    } else {
      assert (tasks + [t])[1..] == tasks[1..] + [t];
      LinesAppend(tasks[1..], t);
    }
  }

  // ---------------------------------------------------------------------------
  // The C string operations on the buffer
  // ---------------------------------------------------------------------------

  /** A literal as stored in memory, with its terminator. */
  function Stored(s: string): (r: seq<char>)
    requires Nul !in s
    ensures StringAt(r, 0, s)
  {
    s + [Nul]
  }

  /** strlen(dst + at). */
  method StrLen(dst: array<char>, at: nat, ghost text: string) returns (n: nat)
    requires StringAt(dst[..], at, text)
    ensures n == |text|
  {
    n := 0;
    while dst[at + n] != Nul
      invariant n <= |text| && dst[at..at + n] == text[..n]
      decreases |text| - n
    {
      assert dst[at + n] == text[n];
      n := n + 1;
    }
  }

  /** strcat(dst + at, src): the C string src is copied over the terminator of the C string
      at index at, and terminated again. */
  method StrCat(dst: array<char>, at: nat, src: seq<char>, ghost head: string, ghost tail: string)
    requires StringAt(dst[..], at, head) && StringAt(src, 0, tail)
    requires at + |head| + |tail| < dst.Length
    modifies dst
    ensures StringAt(dst[..], at, head + tail)
    ensures dst[..at] == old(dst[..at])
    ensures forall k :: at + |head| + |tail| < k < dst.Length ==> dst[k] == old(dst[k])
  {
    var n := StrLen(dst, at, head);
    var i := CopyUntilNul(dst, at + n, src, tail);
    assert dst[..at + n][at..] == head;
    dst[at + n + i] := Nul;
    assert dst[at..at + n] == head && dst[at + n..at + n + i] == tail;
    assert dst[at..at + n + i] == dst[at..at + n] + dst[at + n..at + n + i];
  }

  /** strcat's copy loop: the characters of src up to its terminator, stored from index
      start on; returns how many were copied. */
  method CopyUntilNul(dst: array<char>, start: nat, src: seq<char>, ghost tail: string) returns (i: nat)
    requires StringAt(src, 0, tail) && start + |tail| < dst.Length
    modifies dst
    ensures i == |tail| && dst[start..start + i] == tail
    ensures dst[..start] == old(dst[..start])
    ensures forall k :: start + i <= k < dst.Length ==> dst[k] == old(dst[k])
  {
    i := 0;
    while src[i] != Nul
      invariant i <= |tail| && src[..i] == tail[..i]
      invariant dst[..start] == old(dst[..start])
      invariant dst[start..start + i] == tail[..i]
      invariant forall k :: start + i <= k < dst.Length ==> dst[k] == old(dst[k])
      decreases |tail| - i
    {
      assert src[i] == tail[i];
      dst[start + i] := src[i];
      i := i + 1;
    }
  }

  /** A C string at index w behind w other characters is part of the C string at 0. */
  lemma StringAtJoin(s: seq<char>, w: nat, a: string, b: string)
    requires StringAt(s, w, b) && w == |a| && s[..w] == a && Nul !in a
    ensures StringAt(s, 0, a + b)
  {
    assert s[0..w + |b|] == a + b;
  }

  /** vOwnTaskGetRunTimeStats(pcWriteBuffer) given the scheduler's snapshot: the tasks the
      status call filled in, the total run time it reported, and whether the status array
      could be allocated. */
  method RunTimeStats(buf: array<char>, tasks: seq<TaskStatus>, total: nat, arrayOk: bool)
    requires total < U32
    requires forall i :: 0 <= i < |tasks| ==> Nul !in tasks[i].name && tasks[i].runTime < U32
    requires |Report(tasks, total, arrayOk)| < buf.Length
    modifies buf
    ensures TerminatedFrom(buf[..], 0) && CString(buf[..], 0) == Report(tasks, total, arrayOk)
    ensures buf[|Report(tasks, total, arrayOk)| + 1..] == old(buf[|Report(tasks, total, arrayOk)| + 1..])
  {
    ghost var before := buf[..];
    ghost var report := Report(tasks, total, arrayOk);
    buf[0] := Nul;
    assert StringAt(buf[..], 0, []);
    if arrayOk {
      var totalRunTime := total / 100;
      if totalRunTime > 0 {
        WriteHeader(buf);
        WriteRows(buf, tasks, totalRunTime);
      }
    }
    CStringUnique(buf[..], 0, report);
    SameAfter(buf[..], before, |report|);
  }

  /** Two buffers that agree on every cell after index n agree on the slice from n + 1. */
  lemma SameAfter(s: seq<char>, t: seq<char>, n: nat)
    requires |s| == |t| && n < |s|
    requires forall k :: n < k < |s| ==> s[k] == t[k]
    ensures s[n + 1..] == t[n + 1..]
  {
  }

  lemma HeaderText()
    ensures Nul !in RuleLine && Nul !in TitleLine && Nul !in StarLine
    ensures [] + RuleLine == RuleLine && Header == RuleLine + TitleLine + StarLine
  {
  }

  /** The three strcat calls of the header, into the emptied buffer. */
  method WriteHeader(buf: array<char>)
    requires StringAt(buf[..], 0, []) && |Header| < buf.Length
    modifies buf
    ensures StringAt(buf[..], 0, Header)
    ensures forall k :: |Header| < k < buf.Length ==> buf[k] == old(buf[k])
  {
    HeaderText();
    StrCat(buf, 0, Stored(RuleLine), [], RuleLine);
    StrCat(buf, 0, Stored(TitleLine), RuleLine, TitleLine);
    StrCat(buf, 0, Stored(StarLine), RuleLine + TitleLine, StarLine);
  }

  /** The loop over the snapshot: one row per task, the write pointer moved to the end of
      the text after each row. */
  method WriteRows(buf: array<char>, tasks: seq<TaskStatus>, totalRunTime: nat)
    requires totalRunTime > 0
    requires forall i :: 0 <= i < |tasks| ==> Nul !in tasks[i].name && tasks[i].runTime < U32
    requires StringAt(buf[..], 0, Header) && |Header + Lines(tasks)| < buf.Length
    modifies buf
    ensures StringAt(buf[..], 0, Header + Lines(tasks))
    ensures forall k :: |Header + Lines(tasks)| < k < buf.Length ==> buf[k] == old(buf[k])
  {
    var aux := new char[16];
    var w: nat := 0;
    ghost var full := Header + Lines(tasks);
    ghost var text := Header;
    assert Header + Lines(tasks[..0]) == text by {
      assert tasks[..0] == [];
    }
    for x := 0 to |tasks|
      invariant text == Header + Lines(tasks[..x])
      invariant StringAt(buf[..], 0, text)
      invariant w <= |text| <= |full|
      invariant forall k :: |full| < k < buf.Length ==> buf[k] == old(buf[k])
    {
      RowsGrow(tasks, x);
      w := WriteRow(buf, w, tasks[x], aux, totalRunTime, text);
      text := text + TaskLine(tasks[x]);
    }
    assert tasks[..|tasks|] == tasks;
  }

  /** One round of the loop: the row, whichever branch the percentage selects, then the
      write pointer moved on by the length of the text from it. */
  method WriteRow(buf: array<char>, w: nat, t: TaskStatus, aux: array<char>, totalRunTime: nat,
                  ghost text: string) returns (next: nat)
    requires aux.Length == 16 && aux != buf && totalRunTime > 0
    requires Nul !in t.name && t.runTime < U32
    requires StringAt(buf[..], 0, text) && w <= |text|
    requires |text| + |TaskLine(t)| < buf.Length
    modifies buf, aux
    ensures StringAt(buf[..], 0, text + TaskLine(t))
    ensures next == |text + TaskLine(t)|
    ensures forall k :: |text + TaskLine(t)| < k < buf.Length ==> buf[k] == old(buf[k])
  {
    var statsAsPercentage := t.runTime / totalRunTime;
    // Both branches write the same row.
    if statsAsPercentage > 0 {
      AppendRow(buf, w, t, aux, text);
    } else {
      AppendRow(buf, w, t, aux, text);
    }
    StringAtSuffix(buf[..], w, text + TaskLine(t));
    var len := StrLen(buf, w, (text + TaskLine(t))[w..]);
    next := w + len;
  }

  /** One more row extends the text, which stays within the whole report. */
  lemma RowsGrow(tasks: seq<TaskStatus>, x: nat)
    requires x < |tasks|
    ensures Header + Lines(tasks[..x]) + TaskLine(tasks[x]) == Header + Lines(tasks[..x + 1])
    ensures |Header + Lines(tasks[..x + 1])| <= |Header + Lines(tasks)|
  {
    assert tasks[..x + 1] == tasks[..x] + [tasks[x]];
    LinesAppend(tasks[..x], tasks[x]);
    LinesPrefix(tasks, x + 1);
  }

  /** The counter's text fits longToChar's 16-character aux buffer and holds only digits. */
  lemma DecimalText(v: nat)
    ensures v < U32 ==> |Numeral(v, 10)| <= 10
    ensures Nul !in Numeral(v, 10) && '\t' !in Numeral(v, 10) && '\n' !in Numeral(v, 10)
  {
    var digits := Numeral(v, 10);
    if 0 < v < U32 {
      IntDigitCount(v);
    }
    NumeralWellFormed(v, 10);
    assert forall i :: 0 <= i < |digits| ==> DigitValue(digits[i]) < 10;
  }

  lemma RowParts(rest: string, t: TaskStatus)
    ensures rest + t.name + "\t" + Numeral(t.runTime, 10) + "\n" == rest + TaskLine(t)
  {
  }

  lemma SplitJoin(text: string, w: nat, line: string)
    requires w <= |text|
    ensures text[..w] + (text[w..] + line) == text + line
  {
    assert text[..w] + text[w..] == text;
  }

  /** From index w on, the C string at 0 continues as its own tail. */
  lemma StringAtSuffix(s: seq<char>, w: nat, r: string)
    requires StringAt(s, 0, r) && w <= |r|
    ensures StringAt(s, w, r[w..])
  {
    assert s[w..w + |r[w..]|] == r[w..];
  }

  /** The rows of a prefix of the snapshot are no longer than the rows of all of it. */
  lemma {:induction false} LinesPrefix(tasks: seq<TaskStatus>, k: nat)
    requires k <= |tasks|
    ensures |Lines(tasks[..k])| <= |Lines(tasks)|
    decreases |tasks|
  {
    if k > 0 {
      assert tasks[..k][1..] == tasks[1..][..k - 1];
      LinesPrefix(tasks[1..], k - 1);
    }
  }

  /** The four strcat calls of one row, at the write position w inside the report text:
      the name, a tab, the counter converted by longToChar into aux, a newline. */
  method AppendRow(buf: array<char>, w: nat, t: TaskStatus, aux: array<char>, ghost text: string)
    requires aux.Length == 16 && aux != buf
    requires Nul !in t.name && t.runTime < U32
    requires StringAt(buf[..], 0, text) && w <= |text|
    requires |text| + |TaskLine(t)| < buf.Length
    modifies buf, aux
    ensures StringAt(buf[..], 0, text + TaskLine(t))
    ensures forall k :: |text + TaskLine(t)| < k < buf.Length ==> buf[k] == old(buf[k])
  {
    var digits := Numeral(t.runTime, 10);
    DecimalText(t.runTime);
    var rest := text[w..];
    StringAtSuffix(buf[..], w, text);
    assert buf[..w] == text[..w];
    StrCat(buf, w, Stored(t.name), rest, t.name);
    StrCat(buf, w, Stored("\t"), rest + t.name, "\t");
    var p := LongToChar(t.runTime, aux, 0, 10);
    assert StringAt(aux[..], 0, digits);
    StrCat(buf, w, aux[..], rest + t.name + "\t", digits);
    StrCat(buf, w, Stored("\n"), rest + t.name + "\t" + digits, "\n");
    RowParts(rest, t);
    StringAtJoin(buf[..], w, text[..w], rest + TaskLine(t));
    SplitJoin(text, w, TaskLine(t));
  }
}
