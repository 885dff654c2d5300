/** `processFolder`: every PDF in a folder has its CIN extracted, is
    protected with that CIN as password, is stored, and is mailed; a failure
    at any step skips the rest of that file only. The collaborators (PDF
    text extraction, PDF protection, the database, the two mail transports)
    are oracles: each directory entry carries their replies for that file. */
module FolderPipeline {
  import opened Results
  import opened CinExtractor
  import opened Notifier

  /** A directory entry and the replies the collaborators give for it. */
  datatype Entry = Entry(
    name: string,
    text: Reply<string>,      // loading the PDF and stripping its text
    protection: Reply<Bytes>, // `passwordProtectPDF`
    storage: Reply<()>,       // `storeInDatabase`
    secure: Reply<()>,        // `Transport.send` of `sendEmailSecure`
    fallback: Fallback)       // building the message in `sendEmail`, then its attempts

  /** A collaborator call, with the arguments it receives. */
  datatype Call =
    | ExtractText(file: string)
    | Protect(file: string, password: string)
    | Store(filename: string, cin: string, pdf: Bytes, password: string)
    | Send(channel: Channel, mail: Mail)

  /** What is logged for a PDF: processed with its password, or skipped with
      the message of the exception that stopped it. */
  datatype Outcome = Processed(name: string, cin: string) | Skipped(name: string, reason: string)

  /** The calls made for one entry and its outcome, if it is logged at all. */
  datatype Run = Run(calls: seq<Call>, outcome: Option<Outcome>)

  /** The line printed for an outcome. */
  function LogLine(o: Outcome): string {
    match o
    case Processed(name, cin) => "Processed and sent " + name + " with password: " + cin
    case Skipped(name, reason) => "Skipping " + name + ": " + reason
  }

  /** A skip line and a success line are told apart by their first word. */
  lemma LogLineKind(o: Outcome)
    ensures |LogLine(o)| >= 9
    ensures LogLine(o)[..9] == "Skipping " <==> o.Skipped?
  {
    if o.Processed? {
      assert LogLine(o)[..9] == "Processed";
      assert LogLine(o)[..9] != "Skipping " by {
        assert LogLine(o)[0] == 'P';
      }
    } else {
      assert LogLine(o)[..9] == "Skipping ";
    }
  }

  /** ASCII lower-casing of one character. */
  function Lower(c: char): char {
    if 'A' <= c <= 'Z' then (c as int - 'A' as int + 'a' as int) as char else c
  }

  /** ASCII lower-casing of a name. */
  function LowerName(name: string): string {
    seq(|name|, i requires 0 <= i < |name| => Lower(name[i]))
  }

  /** The name lower-cased ends with ".pdf". */
  predicate IsPdfName(name: string) {
    var low := LowerName(name);
    |low| >= 4 && low[|low| - 4..] == ".pdf"
  }

  /** The suffix test ignores case, letter by letter, and nothing else. */
  lemma PdfNameIff(name: string)
    ensures IsPdfName(name) <==>
      && |name| >= 4
      && name[|name| - 4] == '.'
      && name[|name| - 3] in "pP"
      && name[|name| - 2] in "dD"
      && name[|name| - 1] in "fF"
  {
    var low := LowerName(name);
    if |name| >= 4 {
      var n := |name|;
      if low[n - 4..] == ".pdf" {
        assert low[n - 4] == '.' && low[n - 3] == 'p' && low[n - 2] == 'd' && low[n - 1] == 'f';
      }
      if name[n - 4] == '.' && name[n - 3] in "pP" && name[n - 2] in "dD" && name[n - 1] in "fF" {
        assert low[n - 4..] == [low[n - 4], low[n - 3], low[n - 2], low[n - 1]];
      }
    }
  }

  /** What `extractCINFromPDF` yields for an entry: the failure of reading
      the PDF, or the outcome of the scan. */
  function Extraction(e: Entry): Reply<string> {
    match e.text
    case Fail(m) => Fail(m)
    case Ok(text) => CinReply(e.name, text)
  }

  /** One `Send` call per transport attempt, all with the same mail. */
  function SendCalls(tries: seq<Channel>, mail: Mail): seq<Call> {
    seq(|tries|, k requires 0 <= k < |tries| => Send(tries[k], mail))
  }

  /** The body of the `forEach` lambda of `processFolder` for one entry. */
  function FileRun(e: Entry, receiver: string): Run {
    if !IsPdfName(e.name) then Run([], None)
    else
      var afterExtract := [ExtractText(e.name)];
      match Extraction(e)
      case Fail(m) => Run(afterExtract, Some(Skipped(e.name, m)))
      case Ok(cin) =>
        var afterProtect := afterExtract + [Protect(e.name, cin)];
        match e.protection
        case Fail(m) => Run(afterProtect, Some(Skipped(e.name, m)))
        case Ok(pdf) =>
          var afterStore := afterProtect + [Store(e.name, cin, pdf, cin)];
          match e.storage
          case Fail(m) => Run(afterStore, Some(Skipped(e.name, m)))
          case Ok(_) =>
            var mail := Notification(receiver, e.name, cin, pdf);
            var afterSend := afterStore + SendCalls(DeliveryTries(e.secure, e.fallback), mail);
            match DeliveryResult(e.secure, e.fallback)
            case Fail(m) => Run(afterSend, Some(Skipped(e.name, m)))
            case Ok(_) => Run(afterSend, Some(Processed(e.name, cin)))
  }

  /** One entry of `processFolder`: filter by name, then extract, protect,
      store and send, stopping at the first failure. */
  method ProcessFile(e: Entry, receiver: string) returns (calls: seq<Call>, outcome: Option<Outcome>)
    ensures Run(calls, outcome) == FileRun(e, receiver)
  {
    if !IsPdfName(e.name) {
      return [], None;
    }
    calls := [ExtractText(e.name)];
    if e.text.Fail? {
      return calls, Some(Skipped(e.name, e.text.message));
    }
    var extracted := ExtractCin(e.name, e.text.value);
    if extracted.Fail? {
      return calls, Some(Skipped(e.name, extracted.message));
    }
    var cin := extracted.value;
    calls := calls + [Protect(e.name, cin)];
    if e.protection.Fail? {
      return calls, Some(Skipped(e.name, e.protection.message));
    }
    var pdf := e.protection.value;
    calls := calls + [Store(e.name, cin, pdf, cin)];
    if e.storage.Fail? {
      return calls, Some(Skipped(e.name, e.storage.message));
    }
    var mail := Notification(receiver, e.name, cin, pdf);
    var tries, sent := Deliver(e.secure, e.fallback);
    calls := calls + SendCalls(tries, mail);
    if sent.Fail? {
      return calls, Some(Skipped(e.name, sent.message));
    }
    outcome := Some(Processed(e.name, cin));
  }

  /** Entries whose name does not end in ".pdf" are passed over without a
      call and without a log line; every other entry is logged. */
  lemma NonPdfUntouched(e: Entry, receiver: string)
    ensures FileRun(e, receiver).outcome.None? <==> !IsPdfName(e.name)
    ensures !IsPdfName(e.name) ==> FileRun(e, receiver).calls == []
    ensures IsPdfName(e.name) ==> FileRun(e, receiver).outcome.value.name == e.name
  {
  }

  /** The step a call belongs to. */
  function Stage(c: Call): nat {
    match c
    case ExtractText(_) => 0
    case Protect(_, _) => 1
    case Store(_, _, _, _) => 2
    case Send(_, _) => 3
  }

  /** Calls come in the order extract, protect, store, then the send
      attempts, each of the first three at most once. */
  lemma StepsInOrder(e: Entry, receiver: string)
    ensures var cs := FileRun(e, receiver).calls;
      forall i :: 0 <= i < |cs| ==> Stage(cs[i]) == if i < 3 then i else 3
  {
  }

  /** Each step is reached exactly when every earlier step succeeded. */
  lemma StepReachedIff(e: Entry, receiver: string)
    ensures var cs := FileRun(e, receiver).calls;
      && ((exists i :: 0 <= i < |cs| && cs[i].ExtractText?) <==> IsPdfName(e.name))
      && ((exists i :: 0 <= i < |cs| && cs[i].Protect?) <==>
            IsPdfName(e.name) && Extraction(e).Ok?)
      && ((exists i :: 0 <= i < |cs| && cs[i].Store?) <==>
            IsPdfName(e.name) && Extraction(e).Ok? && e.protection.Ok?)
      && ((exists i :: 0 <= i < |cs| && cs[i].Send?) <==>
            IsPdfName(e.name) && Extraction(e).Ok? && e.protection.Ok? && e.storage.Ok?)
  {
    var cs := FileRun(e, receiver).calls;
    StepsInOrder(e, receiver);
    if IsPdfName(e.name) {
      assert cs[0].ExtractText?;
      if Extraction(e).Ok? {
        assert cs[1].Protect?;
        if e.protection.Ok? {
          assert cs[2].Store?;
          if e.storage.Ok? {
            assert cs[3] == Send(Secure, Notification(receiver, e.name, Extraction(e).value, e.protection.value));
          }
        }
      }
    }
  }

  /** The protection step gets the extracted CIN as password. */
  lemma ProtectGetsCin(e: Entry, receiver: string)
    ensures var cs := FileRun(e, receiver).calls;
      forall i :: 0 <= i < |cs| && cs[i].Protect? ==>
        Extraction(e) == Ok(cs[i].password) && cs[i].file == e.name
  {
  }

  /** The store gets the extracted CIN both as the CIN and as the password,
      with the protected bytes. */
  lemma StoreGetsCin(e: Entry, receiver: string)
    ensures var cs := FileRun(e, receiver).calls;
      forall i :: 0 <= i < |cs| && cs[i].Store? ==>
        Extraction(e) == Ok(cs[i].cin) && cs[i].password == cs[i].cin &&
        e.protection == Ok(cs[i].pdf) && cs[i].filename == e.name
  {
  }

  /** Every mail goes to the receiver, states the extracted CIN and carries
      the protected bytes. */
  lemma MailCarriesCin(e: Entry, receiver: string)
    ensures var cs := FileRun(e, receiver).calls;
      forall i :: 0 <= i < |cs| && cs[i].Send? ==>
        Extraction(e).Ok? && e.protection.Ok? &&
        cs[i].mail == Notification(receiver, e.name, Extraction(e).value, e.protection.value)
  {
  }

  /** The extracted CIN is the password given to the protection step and to
      the store, the CIN stored beside it, and the password the mail states;
      the mail goes to the receiver with the protected bytes attached. */
  lemma PasswordIsCin(e: Entry, receiver: string)
    ensures var cs := FileRun(e, receiver).calls;
      && (forall i :: 0 <= i < |cs| && cs[i].Protect? ==>
            Extraction(e) == Ok(cs[i].password) && cs[i].file == e.name)
      && (forall i :: 0 <= i < |cs| && cs[i].Store? ==>
            Extraction(e) == Ok(cs[i].cin) && cs[i].password == cs[i].cin &&
            e.protection == Ok(cs[i].pdf) && cs[i].filename == e.name)
      && (forall i :: 0 <= i < |cs| && cs[i].Send? ==>
            Extraction(e).Ok? && e.protection.Ok? &&
            cs[i].mail == Notification(receiver, e.name, Extraction(e).value, e.protection.value))
  {
    ProtectGetsCin(e, receiver);
    StoreGetsCin(e, receiver);
    MailCarriesCin(e, receiver);
  }

  /** A PDF is processed exactly when every step succeeds, and is then
      logged with its CIN, which has the identifier's shape; otherwise it is
      skipped with the message of the first step that failed, the secure
      sender's own failure never being the one reported. */
  lemma OutcomeContract(e: Entry, receiver: string)
    requires IsPdfName(e.name)
    ensures var o := FileRun(e, receiver).outcome.value;
      && (o.Processed? <==>
            Extraction(e).Ok? && e.protection.Ok? && e.storage.Ok? &&
            DeliveryResult(e.secure, e.fallback).Ok?)
      && (o.Processed? ==> o.cin == Extraction(e).value && IsCin(o.cin))
      && (o.Skipped? ==>
            || (e.text.Fail? && o.reason == e.text.message)
            || (e.text.Ok? && |Matches(e.text.value, 0)| == 0 &&
                o.reason == "No CIN found in " + e.name)
            || (e.text.Ok? && |Matches(e.text.value, 0)| > 1 &&
                o.reason == "Multiple CINs found in " + e.name)
            || (Extraction(e).Ok? && e.protection.Fail? && o.reason == e.protection.message)
            || (Extraction(e).Ok? && e.protection.Ok? && e.storage.Fail? &&
                o.reason == e.storage.message)
            || (Extraction(e).Ok? && e.protection.Ok? && e.storage.Ok? && e.secure.Fail? &&
                e.fallback.assembly.Fail? && o.reason == e.fallback.assembly.message)
            || (Extraction(e).Ok? && e.protection.Ok? && e.storage.Ok? && e.secure.Fail? &&
                e.fallback.assembly.Ok? && 1 <= FallbackTries(e.fallback) &&
                Ending(e.fallback.attempts[FallbackTries(e.fallback) - 1]) == Fail(o.reason)))
  {
    if e.text.Ok? {
      CinReplyContract(e.name, e.text.value);
    }
    DeliveryContract(e.secure, e.fallback);
    FallbackContract(e.fallback);
  }

  /** An entry's outcome as a sequence: one element if it is logged. */
  function Reported(o: Option<Outcome>): seq<Outcome> {
    if o.Some? then [o.value] else []
  }

  /** The run of each entry, in directory order. */
  function Runs(es: seq<Entry>, receiver: string): seq<Run> {
    seq(|es|, i requires 0 <= i < |es| => FileRun(es[i], receiver))
  }

  /** The calls of a sequence of runs, one run after the other. */
  function AllCalls(rs: seq<Run>): seq<Call> {
    if rs == [] then [] else AllCalls(rs[..|rs| - 1]) + rs[|rs| - 1].calls
  }

  /** The logged outcomes of a sequence of runs, in order. */
  function AllOutcomes(rs: seq<Run>): seq<Outcome> {
    if rs == [] then [] else AllOutcomes(rs[..|rs| - 1]) + Reported(rs[|rs| - 1].outcome)
  }

  /** The lines `processFolder` prints for the logged outcomes. */
  function Log(os: seq<Outcome>): seq<string> {
    seq(|os|, k requires 0 <= k < |os| => LogLine(os[k]))
  }

  /** Taking one more entry adds its run at the end. */
  lemma RunsExtend(es: seq<Entry>, i: nat, receiver: string)
    requires i < |es|
    ensures Runs(es[..i + 1], receiver) == Runs(es[..i], receiver) + [FileRun(es[i], receiver)]
  {
    assert Runs(es[..i + 1], receiver)[..i] == Runs(es[..i], receiver);
  }

  /** One more run adds its calls and its logged outcome at the end. */
  lemma AllExtend(rs: seq<Run>, r: Run)
    ensures AllCalls(rs + [r]) == AllCalls(rs) + r.calls
    ensures AllOutcomes(rs + [r]) == AllOutcomes(rs) + Reported(r.outcome)
  {
    assert (rs + [r])[..|rs|] == rs;
  }

  /** One more logged outcome adds its line at the end of the log. */
  lemma LogExtend(os: seq<Outcome>, o: Outcome)
    ensures Log(os + [o]) == Log(os) + [LogLine(o)]
  {
  }

  /** `processFolder`: walk the entries in directory order; whatever happens
      to one entry, the walk goes on with the next. */
  method ProcessFolder(entries: seq<Entry>, receiver: string)
    returns (calls: seq<Call>, outcomes: seq<Outcome>, log: seq<string>)
    ensures calls == AllCalls(Runs(entries, receiver))
    ensures outcomes == AllOutcomes(Runs(entries, receiver))
    ensures log == Log(outcomes)
  {
    calls := [];
    outcomes := [];
    log := [];
    for i := 0 to |entries|
      invariant calls == AllCalls(Runs(entries[..i], receiver))
      invariant outcomes == AllOutcomes(Runs(entries[..i], receiver))
      invariant log == Log(outcomes)
    {
      var fileCalls, outcome := ProcessFile(entries[i], receiver);
      RunsExtend(entries, i, receiver);
      AllExtend(Runs(entries[..i], receiver), Run(fileCalls, outcome));
      calls := calls + fileCalls;
      if outcome.Some? {
        LogExtend(outcomes, outcome.value);
        outcomes := outcomes + [outcome.value];
        log := log + [LogLine(outcome.value)];
      }
    }
    assert entries[..|entries|] == entries;
  }

  /** The calls of two sequences of runs, one after the other, are the calls
      of their concatenation. */
  lemma {:induction false} AllCallsAppend(r1: seq<Run>, r2: seq<Run>)
    decreases |r2|
    ensures AllCalls(r1 + r2) == AllCalls(r1) + AllCalls(r2)
  {
    if r2 == [] {
      assert r1 + r2 == r1;
    } else {
      var r2' := r2[..|r2| - 1];
      assert (r1 + r2)[..|r1 + r2| - 1] == r1 + r2';
      AllCallsAppend(r1, r2');
    }
  }

  /** The outcomes of two sequences of runs, one after the other, are the
      outcomes of their concatenation. */
  lemma {:induction false} AllOutcomesAppend(r1: seq<Run>, r2: seq<Run>)
    decreases |r2|
    ensures AllOutcomes(r1 + r2) == AllOutcomes(r1) + AllOutcomes(r2)
  {
    if r2 == [] {
      assert r1 + r2 == r1;
    } else {
      var r2' := r2[..|r2| - 1];
      assert (r1 + r2)[..|r1 + r2| - 1] == r1 + r2';
      AllOutcomesAppend(r1, r2');
    }
  }

  /** Failure isolation: the calls and outcomes of the entries before and
      after `e` are the same whatever happens while processing `e`. */
  lemma FailureIsolated(a: seq<Entry>, e: Entry, b: seq<Entry>, receiver: string)
    ensures AllCalls(Runs(a + [e] + b, receiver)) ==
      AllCalls(Runs(a, receiver)) + FileRun(e, receiver).calls + AllCalls(Runs(b, receiver))
    ensures AllOutcomes(Runs(a + [e] + b, receiver)) ==
      AllOutcomes(Runs(a, receiver)) + Reported(FileRun(e, receiver).outcome) + AllOutcomes(Runs(b, receiver))
  {
    var ra, re, rb := Runs(a, receiver), Runs([e], receiver), Runs(b, receiver);
    assert Runs(a + [e] + b, receiver) == ra + re + rb;
    assert re[..0] == [];
    AllCallsAppend(ra + re, rb);
    AllCallsAppend(ra, re);
    AllOutcomesAppend(ra + re, rb);
    AllOutcomesAppend(ra, re);
  }

  /** The names of the logged outcomes. */
  function OutcomeNames(os: seq<Outcome>): seq<string> {
    seq(|os|, k requires 0 <= k < |os| => os[k].name)
  }

  /** The names of the entries that end in ".pdf", in directory order. */
  function PdfNames(es: seq<Entry>): seq<string> {
    if es == [] then []
    else PdfNames(es[..|es| - 1]) + (if IsPdfName(es[|es| - 1].name) then [es[|es| - 1].name] else [])
  }

  /** Exactly the PDF entries are logged, each once, in directory order. */
  lemma {:induction false} EveryPdfLogged(es: seq<Entry>, receiver: string)
    decreases |es|
    ensures OutcomeNames(AllOutcomes(Runs(es, receiver))) == PdfNames(es)
  {
    if es != [] {
      var init := es[..|es| - 1];
      var e := es[|es| - 1];
      EveryPdfLogged(init, receiver);
      NonPdfUntouched(e, receiver);
      assert Runs(es, receiver)[..|es| - 1] == Runs(init, receiver);
      var os := AllOutcomes(Runs(init, receiver));
      var r := Reported(FileRun(e, receiver).outcome);
      assert OutcomeNames(os + r) == OutcomeNames(os) + OutcomeNames(r);
    }
  }

  /** A name that does not end in ".pdf" is passed over; the suffix test
      ignores case. */
  lemma ExampleNames()
    ensures !IsPdfName("notes.txt")
    ensures IsPdfName("Scan.PDF")
  {
    PdfNameIff("notes.txt");
    PdfNameIff("Scan.PDF");
  }

  /** A PDF without any identifier is skipped after extraction: nothing is
      protected, stored or sent. */
  lemma ExampleNoCin(e: Entry, receiver: string)
    requires e.name == "bad.pdf" && e.text == Ok("no id")
    ensures FileRun(e, receiver) == Run([ExtractText("bad.pdf")], Some(Skipped("bad.pdf", "No CIN found in bad.pdf")))
  {
    PdfNameIff(e.name);
    assert IsPdfName(e.name);
    assert Matches("no id", 0) == [];
    assert Extraction(e) == Fail("No CIN found in " + "bad.pdf");
    assert "No CIN found in " + "bad.pdf" == "No CIN found in bad.pdf";
  }

  /** A PDF holding two identifiers is skipped as ambiguous. */
  lemma ExampleTwoCins(e: Entry, receiver: string)
    requires e.name == "dup.pdf" && e.text == Ok("AB12345 C654321")
    ensures FileRun(e, receiver) == Run([ExtractText("dup.pdf")], Some(Skipped("dup.pdf", "Multiple CINs found in dup.pdf")))
  {
    PdfNameIff(e.name);
    assert IsPdfName(e.name);
    ExampleTwoShapes();
    assert Extraction(e) == Fail("Multiple CINs found in " + "dup.pdf");
    assert "Multiple CINs found in " + "dup.pdf" == "Multiple CINs found in dup.pdf";
  }
}
