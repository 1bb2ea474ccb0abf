/** The scan-and-classify pass of `log_analyse.py`: every entry of the log
    directory is read once, in listing order; an entry whose content holds the
    marker "ABORT" is a failing test case, every other entry a passing one. The
    script accumulates the failing contents (`logs`), the two counters
    (`num`, `num_err`), the per-file notices it prints and the names it writes to
    `log_testCase_abort.log`, then picks one of two summary messages. */
module LogAnalyse {
  import opened Text

  datatype Option<T> = None | Some(value: T)

  /** The substring whose presence marks a log as failing. */
  const Marker: string := "ABORT"

  /** One directory entry, as the script reads it: its listed name and its
      whole content. */
  datatype Entry = Entry(name: string, content: string)

  // ---------------------------------------------------------------------------
  // Classification
  // ---------------------------------------------------------------------------

  /** `'ABORT' in content`: an entry fails exactly when the marker occurs
      somewhere in its content; in particular an empty log passes. */
  function Failing(e: Entry): (r: bool)
    ensures r <==> exists i: nat :: OccursAt(Marker, e.content, i)
    ensures |e.content| < |Marker| ==> !r
  {
    Contains(Marker, e.content)
  }

  /** The entries of `es` whose classification is `failing`, in their order. */
  function Select(es: seq<Entry>, failing: bool): (r: seq<Entry>)
    ensures |r| <= |es|
    ensures forall k | 0 <= k < |r| :: Failing(r[k]) == failing
    decreases |es|
  {
    if es == [] then []
    else (if Failing(es[0]) == failing then [es[0]] else []) + Select(es[1..], failing)
  }

  /** The selected entries are exactly the entries of the listing with that
      classification. */
  lemma {:induction false} SelectMembers(es: seq<Entry>, failing: bool)
    ensures forall e :: e in Select(es, failing) <==> e in es && Failing(e) == failing
    decreases |es|
  {
    if es != [] {
      SelectMembers(es[1..], failing);
      assert es == [es[0]] + es[1..];
    }
  }

  /** Classifying a listing in two parts is classifying each part, in order. */
  lemma {:induction false} SelectConcat(a: seq<Entry>, b: seq<Entry>, failing: bool)
    ensures Select(a + b, failing) == Select(a, failing) + Select(b, failing)
    decreases |a|
  {
    if a == [] {
      assert a + b == b;
    } else {
      var head := if Failing(a[0]) == failing then [a[0]] else [];
      assert (a + b)[0] == a[0];
      assert (a + b)[1..] == a[1..] + b;
      SelectConcat(a[1..], b, failing);
      calc {
        Select(a + b, failing);
        head + Select(a[1..] + b, failing);
        head + (Select(a[1..], failing) + Select(b, failing));
        (head + Select(a[1..], failing)) + Select(b, failing);
        Select(a, failing) + Select(b, failing);
      }
    }
  }

  /** Failing and passing entries split the listing: every entry lands in
      exactly one of the two, and nothing is lost or duplicated. */
  lemma {:induction false} Partition(es: seq<Entry>)
    ensures multiset(Select(es, true)) + multiset(Select(es, false)) == multiset(es)
    ensures |Select(es, true)| + |Select(es, false)| == |es|
    decreases |es|
  {
    if es != [] {
      var rest := es[1..];
      Partition(rest);
      assert es == [es[0]] + rest;
      assert multiset(es) == multiset{es[0]} + multiset(rest);
      if Failing(es[0]) {
        assert Select(es, true) == [es[0]] + Select(rest, true);
        assert multiset(Select(es, true)) == multiset{es[0]} + multiset(Select(rest, true));
        assert Select(es, false) == Select(rest, false);
      } else {
        assert Select(es, true) == Select(rest, true);
        assert Select(es, false) == [es[0]] + Select(rest, false);
        assert multiset(Select(es, false)) == multiset{es[0]} + multiset(Select(rest, false));
      }
    }
  }

  // ---------------------------------------------------------------------------
  // What the script accumulates
  // ---------------------------------------------------------------------------

  function Names(es: seq<Entry>): seq<string>
  {
    seq(|es|, i requires 0 <= i < |es| => es[i].name)
  }

  function Contents(es: seq<Entry>): seq<string>
  {
    seq(|es|, i requires 0 <= i < |es| => es[i].content)
  }

  /** What the script prints on finding a failing entry: the name followed by
      "is ABORT", with no space between. */
  function Notice(name: string): string
  {
    name + "is ABORT"
  }

  /** A printed notice names exactly one file: different names never give the
      same notice. */
  lemma NoticeNamesOneFile(a: string, b: string)
    ensures Notice(a) == Notice(b) ==> a == b
  {
    if Notice(a) == Notice(b) {
      assert |a| == |b|;
      assert a == Notice(a)[..|a|] && b == Notice(b)[..|b|];
    }
  }

  function Notices(es: seq<Entry>): seq<string>
  {
    seq(|es|, i requires 0 <= i < |es| => Notice(es[i].name))
  }

  /** `logs`: each failing content followed by a newline, in listing order.
      It is empty exactly when no entry failed, because every failing entry
      appends a chunk ending in a newline. */
  function Logs(es: seq<Entry>): (r: string)
    ensures r == "" <==> NumErr(es) == 0
  {
    LinesEmptyIff(Contents(Select(es, true)));
    Lines(Contents(Select(es, true)))
  }

  /** The text written to `log_testCase_abort.log`: each failing name followed
      by a newline, in listing order. It is empty exactly when nothing failed. */
  function AbortList(es: seq<Entry>): (r: string)
    ensures r == "" <==> NumErr(es) == 0
  {
    LinesEmptyIff(Names(Select(es, true)));
    Lines(Names(Select(es, true)))
  }

  /** When no listed name holds a newline, reading the abort list back line by
      line gives exactly the failing names, then one empty piece after the last
      newline. */
  lemma AbortListSplit(es: seq<Entry>)
    requires forall k | 0 <= k < |es| :: '\n' !in es[k].name
    ensures Split(AbortList(es)) == Names(Select(es, true)) + [""]
  {
    FailingNamesOneLine(es);
    SplitLines(Names(Select(es, true)));
  }

  /** Names without newlines stay so after classification. */
  lemma FailingNamesOneLine(es: seq<Entry>)
    requires forall k | 0 <= k < |es| :: '\n' !in es[k].name
    ensures forall k | 0 <= k < |Select(es, true)| :: '\n' !in Select(es, true)[k].name
  {
    SelectMembers(es, true);
    forall k | 0 <= k < |Select(es, true)|
      ensures '\n' !in Select(es, true)[k].name
    {
      var e := Select(es, true)[k];
      assert e in es;
    }
  }

  /** `num_err` and `num`. */
  function NumErr(es: seq<Entry>): nat
  {
    |Select(es, true)|
  }

  function Num(es: seq<Entry>): nat
  {
    |Select(es, false)|
  }

  lemma ProjectionsConcat(a: seq<Entry>, b: seq<Entry>)
    ensures Names(a + b) == Names(a) + Names(b)
    ensures Contents(a + b) == Contents(a) + Contents(b)
    ensures Notices(a + b) == Notices(a) + Notices(b)
  {
  }

  /** The outputs are built in listing order: the outputs for a listing are the
      outputs for its first part followed by those for the rest. */
  lemma OutputsConcat(a: seq<Entry>, b: seq<Entry>)
    ensures Logs(a + b) == Logs(a) + Logs(b)
    ensures AbortList(a + b) == AbortList(a) + AbortList(b)
    ensures Notices(Select(a + b, true)) == Notices(Select(a, true)) + Notices(Select(b, true))
    ensures NumErr(a + b) == NumErr(a) + NumErr(b) && Num(a + b) == Num(a) + Num(b)
  {
    SelectConcat(a, b, true);
    SelectConcat(a, b, false);
    ProjectionsConcat(Select(a, true), Select(b, true));
    LinesConcat(Contents(Select(a, true)), Contents(Select(b, true)));
    LinesConcat(Names(Select(a, true)), Names(Select(b, true)));
  }

  /** What one entry contributes: a failing entry adds its content and its name,
      each with a newline, one notice and one to `num_err`; a passing entry adds
      one to `num` and nothing else. */
  lemma OutputsOfOne(e: Entry)
    ensures Failing(e) ==>
      Logs([e]) == e.content + "\n" && AbortList([e]) == e.name + "\n"
      && Notices(Select([e], true)) == [Notice(e.name)] && NumErr([e]) == 1 && Num([e]) == 0
    ensures !Failing(e) ==>
      Logs([e]) == "" && AbortList([e]) == ""
      && Notices(Select([e], true)) == [] && NumErr([e]) == 0 && Num([e]) == 1
  {
    assert [e][1..] == [];
    if Failing(e) {
      assert Select([e], true) == [e];
      assert Contents([e]) == [e.content] && Names([e]) == [e.name];
      assert [e.content][1..] == [] && [e.name][1..] == [];
      assert Lines([e.content]) == e.content + "\n" + "";
      assert Lines([e.name]) == e.name + "\n" + "";
    } else {
      assert Select([e], true) == [];
    }
  }

  /** A directory holding `a.log` = "ok" and `b.log` = "something ABORT here":
      only `b.log` fails, and it alone reaches every output. */
  lemma TwoLogsExample(a: Entry, b: Entry, logPath: string)
    requires a == Entry("a.log", "ok") && b == Entry("b.log", "something ABORT here")
    ensures Num([a, b]) == 1 && NumErr([a, b]) == 1
    ensures Logs([a, b]) == "something ABORT here\n" && AbortList([a, b]) == "b.log\n"
    ensures Notices(Select([a, b], true)) == [Notice("b.log")]
    ensures Summary(Logs([a, b]), Num([a, b]), NumErr([a, b]), logPath).message
      == "1 error logs, please check it in" + logPath + "/logs.log"
  {
    assert OccursAt(Marker, b.content, 10);
    assert Failing(b) && !Failing(a);
    assert [a, b] == [a] + [b];
    OutputsConcat([a], [b]);
    OutputsOfOne(a);
    OutputsOfOne(b);
    assert Notices(Select([a, b], true)) == [] + [Notice(b.name)];
    OneFailureSummary(Logs([a, b]), Num([a, b]), logPath);
  }

  /** With logs written and one failure, the summary reports "1 error logs". */
  lemma OneFailureSummary(logs: string, num: nat, logPath: string)
    requires logs != ""
    ensures Summary(logs, num, 1, logPath).message == "1 error logs, please check it in" + logPath + "/logs.log"
  {
    assert NatToString(1) == [DigitChar(1)] == "1";
    assert Summary(logs, num, 1, logPath).message
      == NatToString(1) + " error logs, please check it in" + logPath + "/logs.log";
  }

  // ---------------------------------------------------------------------------
  // The loop
  // ---------------------------------------------------------------------------

  /** One more entry extends every output by what that entry contributes. */
  lemma ScanStep(done: seq<Entry>, e: Entry)
    ensures Failing(e) ==>
      Logs(done + [e]) == Logs(done) + e.content + "\n"
      && AbortList(done + [e]) == AbortList(done) + e.name + "\n"
      && Notices(Select(done + [e], true)) == Notices(Select(done, true)) + [Notice(e.name)]
      && NumErr(done + [e]) == NumErr(done) + 1 && Num(done + [e]) == Num(done)
    ensures !Failing(e) ==>
      Logs(done + [e]) == Logs(done) && AbortList(done + [e]) == AbortList(done)
      && Notices(Select(done + [e], true)) == Notices(Select(done, true))
      && NumErr(done + [e]) == NumErr(done) && Num(done + [e]) == Num(done) + 1
  {
    OutputsConcat(done, [e]);
    OutputsOfOne(e);
  }

  /** The `for` loop over the listed entries. It returns the final `logs`,
      `num`, `num_err`, the text written to the abort list and the notices
      printed, in order. */
  method Scan(entries: seq<Entry>)
    returns (logs: string, num: nat, numErr: nat, abortList: string, notices: seq<string>)
    ensures logs == Logs(entries) && abortList == AbortList(entries)
    ensures notices == Notices(Select(entries, true))
    ensures num == Num(entries) && numErr == NumErr(entries)
    ensures num + numErr == |entries|
    ensures logs == "" <==> numErr == 0
  {
    logs, num, numErr, abortList, notices := "", 0, 0, "", [];
    for i := 0 to |entries|
      invariant logs == Logs(entries[..i]) && abortList == AbortList(entries[..i])
      invariant notices == Notices(Select(entries[..i], true))
      invariant num == Num(entries[..i]) && numErr == NumErr(entries[..i])
    {
      var e := entries[i];
      assert entries[..i + 1] == entries[..i] + [e];
      ScanStep(entries[..i], e);
      if Contains(Marker, e.content) {
        logs := logs + e.content + "\n";
        numErr := numErr + 1;
        notices := notices + [Notice(e.name)];
        abortList := abortList + e.name + "\n";
      } else {
        num := num + 1;
      }
    }
    assert entries[..|entries|] == entries;
    Partition(entries);
  }

  // ---------------------------------------------------------------------------
  // The summary
  // ---------------------------------------------------------------------------

  /** The summary line and, in the failure branch only, the contents written to
      `logs.log`. */
  datatype Outcome = Outcome(message: string, logsFile: Option<string>)

  /** The branch on `logs == ''` after the loop. The message opens with the
      count it reports, in decimal and followed by a space: `num` when `logs` is
      empty, `num_err` otherwise. Only in the second case is `logs.log` written,
      with `logs`, and the message then ends with that file's path. */
  function Summary(logs: string, num: nat, numErr: nat, logPath: string): (o: Outcome)
    ensures var n := if logs == "" then num else numErr; var d := NatToString(n);
      |d| < |o.message| && o.message[..|d|] == d && o.message[|d|] == ' '
      && DecimalValue(o.message[..|d|]) == n
    ensures o.logsFile.Some? <==> logs != ""
    ensures o.logsFile.Some? ==> o.logsFile.value == logs
    ensures logs != "" ==>
      |logPath| + 9 <= |o.message| && o.message[|o.message| - (|logPath| + 9)..] == logPath + "/logs.log"
  {
    if logs == "" then
      CountOpens(num, " logs are right");
      Outcome(NatToString(num) + " logs are right", None)
    else
      CountOpens(numErr, " error logs, please check it in" + logPath + "/logs.log");
      Outcome(NatToString(numErr) + " error logs, please check it in" + logPath + "/logs.log", Some(logs))
  }

  /** A message made of `str(n)` and a text starting with a space opens with
      the decimal numeral of `n`, delimited by that space. */
  lemma CountOpens(n: nat, rest: string)
    requires |rest| >= 1 && rest[0] == ' '
    ensures var m := NatToString(n) + rest; var d := NatToString(n);
      |d| < |m| && m[..|d|] == d && m[|d|] == ' ' && DecimalValue(m[..|d|]) == n
  {
    var d := NatToString(n);
    assert (d + rest)[..|d|] == d;
    NatToStringValue(n);
  }

  /** Testing `logs` instead of `num_err` picks the right branch: "all right"
      (reporting every entry as passing) exactly when no entry failed, and
      otherwise the failure count, with `logs.log` written with the failing
      contents. */
  lemma SummaryDecision(es: seq<Entry>, logPath: string)
    ensures var o := Summary(Logs(es), Num(es), NumErr(es), logPath);
      (o.logsFile == None <==> NumErr(es) == 0)
      && (NumErr(es) == 0 ==> o.message == NatToString(|es|) + " logs are right")
      && (NumErr(es) > 0 ==>
            o.message == NatToString(NumErr(es)) + " error logs, please check it in" + logPath + "/logs.log"
            && o.logsFile == Some(Logs(es)))
  {
    Partition(es);
  }

  // ---------------------------------------------------------------------------
  // The whole script
  // ---------------------------------------------------------------------------

  /** The names `ls` printed: `listing.strip().split('\n')`. Never empty; an
      empty or all-whitespace listing gives the single name "". */
  function Listing(listing: string): (names: seq<string>)
    ensures |names| >= 1
    ensures forall k | 0 <= k < |names| :: '\n' !in names[k]
    ensures Join(names) == Strip(listing)
    ensures AllSpace(listing) ==> names == [""]
  {
    JoinSplit(Strip(listing));
    Split(Strip(listing))
  }

  /** Each listed name paired with what reading that file gives: one entry per
      name, in listing order. */
  function ReadAll(names: seq<string>, read: string -> string): (es: seq<Entry>)
    ensures Names(es) == names
    ensures forall k | 0 <= k < |es| :: es[k].content == read(es[k].name)
  {
    seq(|names|, i requires 0 <= i < |names| => Entry(names[i], read(names[i])))
  }

  /** Entries read from newline-free names keep newline-free names. */
  lemma ListedNamesOneLine(names: seq<string>, read: string -> string)
    requires forall k | 0 <= k < |names| :: '\n' !in names[k]
    ensures forall k | 0 <= k < |ReadAll(names, read)| :: '\n' !in ReadAll(names, read)[k].name
  {
    var es := ReadAll(names, read);
    forall k | 0 <= k < |es|
      ensures '\n' !in es[k].name
    {
      assert es[k].name == Names(es)[k] == names[k];
    }
  }

  /** What one run leaves behind: the lines printed, the contents of
      `log_testCase_abort.log` (always written) and those of `logs.log`
      (written only when something failed). */
  datatype Report = Report(stdout: seq<string>, abortFile: string, logsFile: Option<string>)

  /** One run of the script over the directory whose `ls` output is `listing`
      and whose files hold `read(name)`. */
  method Run(listing: string, read: string -> string, logPath: string) returns (report: Report)
    ensures var es := ReadAll(Listing(listing), read);
      report.abortFile == AbortList(es)
      && Split(report.abortFile) == Names(Select(es, true)) + [""]
      && |report.stdout| == NumErr(es) + 1
      && report.stdout[..NumErr(es)] == Notices(Select(es, true))
      && report.stdout[NumErr(es)]
         == (if NumErr(es) == 0 then NatToString(|es|) + " logs are right"
             else NatToString(NumErr(es)) + " error logs, please check it in" + logPath + "/logs.log")
      && report.logsFile == (if NumErr(es) == 0 then None else Some(Logs(es)))
  {
    var names := Listing(listing);
    var entries := ReadAll(names, read);
    var logs, num, numErr, abortList, notices := Scan(entries);
    var outcome := Summary(logs, num, numErr, logPath);
    SummaryDecision(entries, logPath);
    ListedNamesOneLine(names, read);
    AbortListSplit(entries);
    report := Report(notices + [outcome.message], abortList, outcome.logsFile);
  }
}
