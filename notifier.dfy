/** Composition and delivery of the notification mail that carries a
    protected PDF and the password needed to open it. */
module Notifier {
  import opened Results

  type Bytes = seq<bv8>

  /** The mail handed to a transport: recipient, subject, text body, and the
      attachment with its file name. */
  datatype Mail = Mail(to: string, subject: string, body: string, filename: string, attachment: Bytes)

  const SubjectLead := "Protected PDF: "
  const Greeting := "Dear recipient,\n\nPlease find attached the password-protected PDF file: "
  const PasswordLead := "\n\nPassword to open the file: "
  const Closing := "\n\nSimply open the PDF with any PDF reader and enter the password when prompted.\n\nBest regards"

  /** The subject line for the file `name`. */
  function Subject(name: string): string {
    SubjectLead + name
  }

  /** The text body for the file `name` protected with password `cin`. */
  function Body(name: string, cin: string): string {
    Greeting + name + PasswordLead + cin + Closing
  }

  /** The notification for file `name`, sent to `receiver` with the
      protected bytes attached under the file's own name. */
  function Notification(receiver: string, name: string, cin: string, pdf: Bytes): Mail {
    Mail(receiver, Subject(name), Body(name, cin), name, pdf)
  }

  /** The subject ends with the file name, behind a fixed lead. */
  lemma SubjectNamesFile(name: string)
    ensures |Subject(name)| == |SubjectLead| + |name|
    ensures Subject(name)[|SubjectLead|..] == name
  {
  }

  /** Distinct files get distinct subjects. */
  lemma SubjectInjective(n1: string, n2: string)
    requires Subject(n1) == Subject(n2)
    ensures n1 == n2
  {
    SubjectNamesFile(n1);
    SubjectNamesFile(n2);
  }

  /** The body names the file and states the password verbatim, each at a
      position fixed by the text before it. */
  lemma BodyLayout(name: string, cin: string)
    ensures var b := Body(name, cin);
      var p := |Greeting| + |name| + |PasswordLead|;
      && |b| == p + |cin| + |Closing|
      && b[|Greeting|..|Greeting| + |name|] == name
      && b[p..p + |cin|] == cin
  {
    var b := Body(name, cin);
    var p := |Greeting| + |name| + |PasswordLead|;
    assert b == (Greeting + name) + PasswordLead + cin + Closing;
    assert b[..|Greeting| + |name|] == Greeting + name;
    assert b[..p + |cin|] == Greeting + name + PasswordLead + cin;
    assert b[..p + |cin|][p..] == cin;
    assert b[..|Greeting| + |name|][|Greeting|..] == name;
  }

  /** For a given file, the body determines the password it states. */
  lemma BodyDeterminesPassword(name: string, c1: string, c2: string)
    requires Body(name, c1) == Body(name, c2)
    ensures c1 == c2
  {
    BodyLayout(name, c1);
    BodyLayout(name, c2);
  }

  /** Number of transport attempts `sendEmail` makes before giving up. */
  const MaxRetries: nat := 3

  /** How one attempt of the retry loop of `sendEmail` ends: the mail goes
      out; `Transport.send` throws a `MessagingException`, which the loop
      catches; or another exception ends the loop at once, whether thrown by
      `Transport.send` or by the pause that follows a caught failure. */
  datatype Transmission = Delivered | Refused(message: string) | Aborted(message: string)

  /** The replies of successive attempts of `sendEmail`; there is one for
      every attempt the retry loop can make. */
  type Attempts = s: seq<Transmission> | |s| >= MaxRetries
    witness [Refused("unreachable"), Refused("unreachable"), Refused("unreachable")]

  /** What the fallback sender meets for one mail: building the message
      (address parsing, MIME assembly), which may fail before any attempt,
      then the replies of its attempts. */
  datatype Fallback = Fallback(assembly: Reply<()>, attempts: Attempts)

  /** Index of the first attempt the retry loop does not catch, or `|script|`
      if it catches them all. */
  function FirstStop(script: seq<Transmission>): (n: nat)
    ensures n <= |script|
    ensures forall k :: 0 <= k < n ==> script[k].Refused?
    ensures n < |script| ==> !script[n].Refused?
  {
    if script == [] then 0
    else if !script[0].Refused? then 0
    else 1 + FirstStop(script[1..])
  }

  /** What an attempt that ends the loop makes of it. */
  function Ending(t: Transmission): Reply<()> {
    if t.Delivered? then Ok(()) else Fail(t.message)
  }

  /** How many attempts the fallback sender makes. */
  function FallbackTries(f: Fallback): nat {
    if f.assembly.Fail? then 0
    else if FirstStop(f.attempts) < MaxRetries then FirstStop(f.attempts) + 1
    else MaxRetries
  }

  /** What the fallback sender ends with: success, or the exception it
      throws. */
  function FallbackResult(f: Fallback): Reply<()> {
    if f.assembly.Fail? then f.assembly
    else if FirstStop(f.attempts) < MaxRetries then Ending(f.attempts[FirstStop(f.attempts)])
    else Fail(f.attempts[MaxRetries - 1].message)
  }

  /** A message that cannot be built is never attempted. Otherwise the retry
      loop makes 1 to `MaxRetries` attempts, retries only caught failures,
      and ends with the last attempt: it succeeds exactly when an attempt
      gets through before anything ends the loop, and otherwise throws the
      exception of its last attempt. */
  lemma FallbackContract(f: Fallback)
    ensures FallbackTries(f) <= MaxRetries
    ensures f.assembly.Fail? ==> FallbackTries(f) == 0 && FallbackResult(f) == f.assembly
    ensures f.assembly.Ok? ==> 1 <= FallbackTries(f)
    ensures forall k :: 0 <= k < FallbackTries(f) - 1 ==> f.attempts[k].Refused?
    ensures f.assembly.Ok? && FallbackTries(f) < MaxRetries ==> !f.attempts[FallbackTries(f) - 1].Refused?
    ensures f.assembly.Ok? ==> FallbackResult(f) == Ending(f.attempts[FallbackTries(f) - 1])
    ensures FallbackResult(f).Ok? <==>
      f.assembly.Ok? &&
      exists k :: 0 <= k < MaxRetries && f.attempts[k].Delivered? &&
        forall j :: 0 <= j < k ==> f.attempts[j].Refused?
  {
    if f.assembly.Ok? {
      var n := FirstStop(f.attempts);
      if exists k :: 0 <= k < MaxRetries && f.attempts[k].Delivered? &&
          forall j :: 0 <= j < k ==> f.attempts[j].Refused? {
        var k :| 0 <= k < MaxRetries && f.attempts[k].Delivered? &&
          forall j :: 0 <= j < k ==> f.attempts[j].Refused?;
        assert n == k;
      }
    }
  }

  /** `sendEmail` after its session setup: build the message, then the retry
      loop that stops on success, retries a caught failure after a pause, and
      re-throws the caught failure of the last permitted attempt. */
  method SendEmail(f: Fallback) returns (tries: nat, r: Reply<()>)
    ensures tries == FallbackTries(f) && r == FallbackResult(f)
  {
    if f.assembly.Fail? {
      return 0, f.assembly;
    }
    var i := 0;
    while i < MaxRetries
      invariant i < MaxRetries
      invariant forall k :: 0 <= k < i ==> f.attempts[k].Refused?
    {
      var outcome := f.attempts[i];
      match outcome {
        case Delivered =>
          return i + 1, Ok(());
        case Aborted(m) =>
          return i + 1, Fail(m);
        case Refused(m) =>
          if i == MaxRetries - 1 {
            return i + 1, Fail(m);
          }
      }
      i := i + 1;
    }
    assert false;
  }

  /** The two senders: the call of `sendEmailSecure`, and attempt number
      `attempt` (from 0) of the retry loop of `sendEmail`. */
  datatype Channel = Secure | Starttls(attempt: nat)

  /** The STARTTLS attempts `0 .. n-1`. */
  function StarttlsTries(n: nat): (cs: seq<Channel>)
    ensures |cs| == n
    ensures forall k :: 0 <= k < n ==> cs[k] == Starttls(k)
  {
    if n == 0 then [] else StarttlsTries(n - 1) + [Starttls(n - 1)]
  }

  /** The sender calls of the send step, in order. */
  function DeliveryTries(secure: Reply<()>, fallback: Fallback): seq<Channel> {
    [Secure] + (if secure.Ok? then [] else StarttlsTries(FallbackTries(fallback)))
  }

  /** What the send step ends with: the secure sender's failure is dropped
      and the fallback's decides. */
  function DeliveryResult(secure: Reply<()>, fallback: Fallback): Reply<()> {
    if secure.Ok? then Ok(()) else FallbackResult(fallback)
  }

  /** The secure sender is called exactly once and first; the fallback is
      used exactly when it fails, with the retry loop's attempts; the step
      succeeds exactly when the secure sender or the fallback does, and
      otherwise fails with the fallback's exception, never the secure
      sender's. */
  lemma DeliveryContract(secure: Reply<()>, fallback: Fallback)
    ensures var ts := DeliveryTries(secure, fallback);
      && ts[0] == Secure
      && (forall k :: 1 <= k < |ts| ==> ts[k] == Starttls(k - 1))
      && (secure.Ok? ==> |ts| == 1)
      && (secure.Fail? ==> |ts| == 1 + FallbackTries(fallback) <= 1 + MaxRetries)
    ensures DeliveryResult(secure, fallback).Ok? <==>
      secure.Ok? || FallbackResult(fallback).Ok?
    ensures DeliveryResult(secure, fallback).Fail? ==>
      secure.Fail? && DeliveryResult(secure, fallback) == FallbackResult(fallback)
  {
    FallbackContract(fallback);
  }

  /** The send step of `processFolder`: the secure sender, then on any
      failure the retrying fallback sender. */
  method Deliver(secure: Reply<()>, fallback: Fallback) returns (tries: seq<Channel>, r: Reply<()>)
    ensures tries == DeliveryTries(secure, fallback) && r == DeliveryResult(secure, fallback)
  {
    tries := [Secure];
    if secure.Ok? {
      r := Ok(());
    } else {
      var n;
      n, r := SendEmail(fallback);
      tries := tries + StarttlsTries(n);
    }
  }

  /** The secure sender fails, the fallback is refused once and then gets
      through on its second attempt: three sender calls are made. */
  lemma ExampleSecondFallbackAttempt()
    ensures var fallback := Fallback(Ok(()), [Refused("timeout"), Delivered, Refused("refused")]);
      && DeliveryTries(Fail("ssl"), fallback) == [Secure, Starttls(0), Starttls(1)]
      && DeliveryResult(Fail("ssl"), fallback) == Ok(())
  {
    var script: Attempts := [Refused("timeout"), Delivered, Refused("refused")];
    assert FirstStop(script) == 1 by {
      assert !script[1..][0].Refused?;
    }
    assert StarttlsTries(2) == [Starttls(0), Starttls(1)];
  }

  /** Every attempt is refused: the third refusal is what is reported. */
  lemma ExampleAllFail()
    ensures var fallback := Fallback(Ok(()), [Refused("a"), Refused("b"), Refused("c"), Delivered]);
      && |DeliveryTries(Fail("ssl"), fallback)| == 1 + MaxRetries
      && DeliveryResult(Fail("ssl"), fallback) == Fail("c")
  {
    var fallback := Fallback(Ok(()), [Refused("a"), Refused("b"), Refused("c"), Delivered]);
    FallbackContract(fallback);
  }

  /** An exception other than `MessagingException` is not retried, even
      though the next attempts would get through. */
  lemma ExampleAbortStopsRetry()
    ensures var fallback := Fallback(Ok(()), [Aborted("IllegalStateException"), Delivered, Delivered]);
      && DeliveryTries(Fail("ssl"), fallback) == [Secure, Starttls(0)]
      && DeliveryResult(Fail("ssl"), fallback) == Fail("IllegalStateException")
  {
    var script: Attempts := [Aborted("IllegalStateException"), Delivered, Delivered];
    assert FirstStop(script) == 0;
    assert StarttlsTries(1) == [Starttls(0)];
  }

  /** A message the fallback cannot build (an unparsable address, which the
      secure sender rejects as well) is never attempted. */
  lemma ExampleAssemblyFails()
    ensures var fallback := Fallback(Fail("AddressException"), [Delivered, Delivered, Delivered]);
      && DeliveryTries(Fail("AddressException"), fallback) == [Secure]
      && DeliveryResult(Fail("AddressException"), fallback) == Fail("AddressException")
  {
  }
}
