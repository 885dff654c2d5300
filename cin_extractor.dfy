/** The identifier (CIN) scanner of `extractCINFromPDF`: the pattern
    `([A-Z][0-9]{6})|([A-Z]{2}[0-9]{5})` searched for, unanchored, left to
    right and without overlap, followed by the none / many / one decision. */
module CinExtractor {
  import opened Results

  /** Every identifier is exactly this many characters long. */
  const CinLength: nat := 7

  /** The ASCII class `[A-Z]`. */
  predicate IsUpper(c: char) { 'A' <= c <= 'Z' }

  /** The ASCII class `[0-9]`. */
  predicate IsDigit(c: char) { '0' <= c <= '9' }

  /** The character at offset `k` of position `i` is in the class an
      alternative with `letters` leading letters expects there. */
  predicate CharFits(s: string, i: nat, letters: nat, k: nat)
    requires i + k < |s|
  {
    if k < letters then IsUpper(s[i + k]) else IsDigit(s[i + k])
  }

  /** The characters `s[i + k]`, ..., `s[i + 6]` fit one alternative of the
      pattern: offsets below `letters` are `[A-Z]`, the others `[0-9]`. */
  predicate FitsAt(s: string, i: nat, letters: nat, k: nat)
    requires i + CinLength <= |s|
    decreases CinLength - k
  {
    k >= CinLength || (CharFits(s, i, letters, k) && FitsAt(s, i, letters, k + 1))
  }

  /** First alternative of the pattern, `[A-Z][0-9]{6}`, at position `i`. */
  predicate OneLetterAt(s: string, i: nat)
    requires i + CinLength <= |s|
  {
    FitsAt(s, i, 1, 0)
  }

  /** Second alternative of the pattern, `[A-Z]{2}[0-9]{5}`, at position `i`. */
  predicate TwoLettersAt(s: string, i: nat)
    requires i + CinLength <= |s|
  {
    FitsAt(s, i, 2, 0)
  }

  /** The pattern matches at position `i`. Both alternatives are seven
      characters long, so the match is `s[i..i + 7]` whichever one it is. */
  predicate MatchesAt(s: string, i: nat) {
    i + CinLength <= |s| && (OneLetterAt(s, i) || TwoLettersAt(s, i))
  }

  /** A string the pattern matches in full: an identifier. */
  predicate IsCin(w: string) {
    |w| == CinLength && MatchesAt(w, 0)
  }

  /** The two alternatives never hold at the same position: the second
      character is a digit in one and an upper-case letter in the other. */
  lemma ShapesExclusive(s: string, i: nat)
    requires i + CinLength <= |s|
    ensures !(OneLetterAt(s, i) && TwoLettersAt(s, i))
  {
    if OneLetterAt(s, i) {
      assert FitsAt(s, i, 1, 1);
      assert IsDigit(s[i + 1]);
    }
  }

  /** `FitsAt` checks every remaining offset against its character class. */
  lemma {:induction false} FitsAtIff(s: string, i: nat, letters: nat, k: nat)
    requires i + CinLength <= |s|
    decreases CinLength - k
    ensures FitsAt(s, i, letters, k) <==>
      forall m :: k <= m < CinLength ==> CharFits(s, i, letters, m)
  {
    if k < CinLength {
      FitsAtIff(s, i, letters, k + 1);
    }
  }

  /** An identifier is seven characters: one upper-case letter and six
      digits, or two upper-case letters and five digits. */
  lemma IsCinIff(w: string)
    ensures IsCin(w) <==>
      && |w| == CinLength
      && IsUpper(w[0])
      && (forall m :: 2 <= m < CinLength ==> IsDigit(w[m]))
      && (IsDigit(w[1]) || IsUpper(w[1]))
  {
    if |w| == CinLength {
      FitsAtIff(w, 0, 1, 0);
      FitsAtIff(w, 0, 2, 0);
    }
  }

  /** Matching at `i` depends only on the seven characters from `i`. */
  lemma {:induction false} FitsAtSlice(s: string, i: nat, letters: nat, k: nat)
    requires i + CinLength <= |s|
    decreases CinLength - k
    ensures FitsAt(s, i, letters, k) == FitsAt(s[i..i + CinLength], 0, letters, k)
  {
    if k < CinLength {
      FitsAtSlice(s, i, letters, k + 1);
    }
  }

  /** The text a match covers is an identifier: seven characters, one
      upper-case letter and six digits or two upper-case letters and five digits. */
  lemma MatchIsCin(s: string, i: nat)
    requires MatchesAt(s, i)
    ensures IsCin(s[i..i + CinLength])
  {
    FitsAtSlice(s, i, 1, 0);
    FitsAtSlice(s, i, 2, 0);
  }

  /** The start positions of the matches that repeated `Matcher.find()` calls
      report from position `from` on: each start position is tried in turn,
      and after a match the search resumes right behind it. */
  function Matches(s: string, from: nat): (ms: seq<nat>)
    decreases |s| - from
    ensures forall k: int :: 0 <= k < |ms| ==> from <= ms[k] && ms[k] + CinLength <= |s|
  {
    if from + CinLength > |s| then []
    else if MatchesAt(s, from) then [from] + Matches(s, from + CinLength)
    else Matches(s, from + 1)
  }

  /** Every reported position is a match at or after `from`. */
  ghost predicate AllMatch(s: string, from: nat, ps: seq<nat>) {
    forall k: int :: 0 <= k < |ps| ==> from <= ps[k] && MatchesAt(s, ps[k])
  }

  /** Reported positions increase and reported matches do not overlap. */
  ghost predicate Disjoint(ps: seq<nat>) {
    forall k, l :: 0 <= k < l < |ps| ==> ps[k] + CinLength <= ps[l]
  }

  /** Position `j` lies inside one of the reported matches. */
  ghost predicate Covered(ps: seq<nat>, j: nat) {
    exists k :: 0 <= k < |ps| && ps[k] <= j < ps[k] + CinLength
  }

  /** Every match at or after `from` lies inside a reported one. */
  ghost predicate CoversAll(s: string, from: nat, ps: seq<nat>) {
    forall j: nat {:trigger Covered(ps, j)} :: from <= j && MatchesAt(s, j) ==> Covered(ps, j)
  }

  /** Independent description of a left-to-right, non-overlapping scan from
      `from`, without reference to how the search proceeds. */
  ghost predicate IsScan(s: string, from: nat, ps: seq<nat>) {
    AllMatch(s, from, ps) && Disjoint(ps) && CoversAll(s, from, ps)
  }

  /** Every position the scan reports is a match. */
  lemma {:induction false} MatchesAllMatch(s: string, from: nat)
    decreases |s| - from
    ensures AllMatch(s, from, Matches(s, from))
  {
    if from + CinLength <= |s| {
      var ms := Matches(s, from);
      if MatchesAt(s, from) {
        var rest := Matches(s, from + CinLength);
        assert ms == [from] + rest;
        MatchesAllMatch(s, from + CinLength);
        forall k: int | 0 <= k < |ms|
          ensures from <= ms[k] && MatchesAt(s, ms[k])
        {
          if k > 0 {
            assert ms[k] == rest[k - 1];
          }
        }
      } else {
        MatchesAllMatch(s, from + 1);
      }
    }
  }

  /** The reported matches are in increasing order and do not overlap. */
  lemma {:induction false} MatchesDisjoint(s: string, from: nat)
    decreases |s| - from
    ensures Disjoint(Matches(s, from))
  {
    if from + CinLength <= |s| {
      if MatchesAt(s, from) {
        var ms := Matches(s, from);
        var rest := Matches(s, from + CinLength);
        assert ms == [from] + rest;
        MatchesDisjoint(s, from + CinLength);
        forall k, l | 0 <= k < l < |ms|
          ensures ms[k] + CinLength <= ms[l]
        {
          assert ms[l] == rest[l - 1];
          if k > 0 {
            assert ms[k] == rest[k - 1];
          }
        }
      } else {
        MatchesDisjoint(s, from + 1);
      }
    }
  }

  /** No match is silently lost: each lies inside a reported match. */
  lemma {:induction false} MatchesCoverAll(s: string, from: nat)
    decreases |s| - from
    ensures CoversAll(s, from, Matches(s, from))
  {
    if from + CinLength <= |s| {
      var ms := Matches(s, from);
      if MatchesAt(s, from) {
        var rest := Matches(s, from + CinLength);
        assert ms == [from] + rest;
        MatchesCoverAll(s, from + CinLength);
        forall j: nat | from <= j && MatchesAt(s, j)
          ensures Covered(ms, j)
        {
          if j < from + CinLength {
            assert ms[0] <= j < ms[0] + CinLength;
          } else {
            assert Covered(rest, j);
            var k :| 0 <= k < |rest| && rest[k] <= j < rest[k] + CinLength;
            assert ms[k + 1] == rest[k];
          }
        }
      } else {
        MatchesCoverAll(s, from + 1);
        forall j: nat | from <= j && MatchesAt(s, j)
          ensures Covered(ms, j)
        {
          assert from + 1 <= j;
        }
      }
    }
  }

  /** The reported positions form a scan in the sense of `IsScan`. */
  lemma MatchesAreScan(s: string, from: nat)
    ensures IsScan(s, from, Matches(s, from))
  {
    MatchesAllMatch(s, from);
    MatchesDisjoint(s, from);
    MatchesCoverAll(s, from);
  }

  /** A scan from a matching position reports that position first. */
  lemma ScanStartsAtMatch(s: string, from: nat, ps: seq<nat>)
    requires IsScan(s, from, ps)
    requires MatchesAt(s, from)
    ensures |ps| > 0 && ps[0] == from
  {
    assert Covered(ps, from);
    var k :| 0 <= k < |ps| && ps[k] <= from < ps[k] + CinLength;
    assert ps[0] <= ps[k];
  }

  /** What follows the first reported match is a scan resumed after it. */
  lemma ScanResumesAfterMatch(s: string, from: nat, ps: seq<nat>)
    requires IsScan(s, from, ps)
    requires |ps| > 0
    ensures IsScan(s, ps[0] + CinLength, ps[1..])
  {
    var rest := ps[1..];
    forall j: nat | ps[0] + CinLength <= j && MatchesAt(s, j)
      ensures Covered(rest, j)
    {
      assert Covered(ps, j);
      var i :| 0 <= i < |ps| && ps[i] <= j < ps[i] + CinLength;
      assert i != 0;
      assert rest[i - 1] == ps[i];
    }
  }

  /** A scan from a position that does not match is a scan from the next one. */
  lemma ScanSkipsNonMatch(s: string, from: nat, ps: seq<nat>)
    requires IsScan(s, from, ps)
    requires !MatchesAt(s, from)
    ensures IsScan(s, from + 1, ps)
  {
    forall k: int | 0 <= k < |ps|
      ensures from + 1 <= ps[k]
    {
      assert MatchesAt(s, ps[k]);
    }
  }

  /** The scan is determined: any sequence of positions with the properties of
      `IsScan` is exactly what repeated `find()` calls report. */
  lemma {:induction false} ScanIsUnique(s: string, from: nat, ps: seq<nat>)
    requires IsScan(s, from, ps)
    decreases |s| - from
    ensures ps == Matches(s, from)
  {
    if from + CinLength > |s| {
    } else if MatchesAt(s, from) {
      ScanStartsAtMatch(s, from, ps);
      ScanResumesAfterMatch(s, from, ps);
      ScanIsUnique(s, from + CinLength, ps[1..]);
      assert ps == [from] + ps[1..];
    } else {
      ScanSkipsNonMatch(s, from, ps);
      ScanIsUnique(s, from + 1, ps);
    }
  }

  /** What extraction concludes about a text. */
  datatype Extraction = NotFound | Multiple(count: nat) | Found(cin: string)

  /** The decision of `extractCINFromPDF` over the reported matches. */
  function Classify(text: string): Extraction {
    var ms := Matches(text, 0);
    if |ms| == 0 then NotFound
    else if |ms| > 1 then Multiple(|ms|)
    else Found(text[ms[0]..ms[0] + CinLength])
  }

  /** The first element of a sequence, if any. */
  function First(ms: seq<nat>): Option<nat> {
    if ms == [] then None else Some(ms[0])
  }

  /** After `find()` reports `p`, the remaining reports are those of a
      search resumed right behind `p`. */
  lemma {:induction false} MatchesAfterFind(s: string, from: nat)
    requires Matches(s, from) != []
    decreases |s| - from
    ensures Matches(s, from) == [Matches(s, from)[0]] + Matches(s, Matches(s, from)[0] + CinLength)
  {
    if !MatchesAt(s, from) {
      MatchesAfterFind(s, from + 1);
    }
  }

  /** One step of the scan: once `p = all[count]` is reported, the search
      resumed behind it reports the rest of `all`. */
  lemma ScanStep(s: string, pos: nat, all: seq<nat>, count: nat)
    requires count < |all| && Matches(s, pos) == all[count..]
    ensures Matches(s, all[count] + CinLength) == all[count + 1..]
  {
    MatchesAfterFind(s, pos);
    assert all[count..] == [all[count]] + all[count + 1..];
  }

  /** One call of `Matcher.find()`: try each start position from `from` in
      turn and report the first that matches. */
  method Find(s: string, from: nat) returns (m: Option<nat>)
    ensures m == First(Matches(s, from))
  {
    var i := from;
    while i + CinLength <= |s| && !MatchesAt(s, i)
      invariant from <= i
      invariant Matches(s, i) == Matches(s, from)
      decreases |s| - i
    {
      i := i + 1;
    }
    if i + CinLength <= |s| {
      m := Some(i);
    } else {
      m := None;
    }
  }

  /** The `while (matcher.find())` loop of `extractCINFromPDF`: count the
      matches and remember the last one. */
  method ScanText(text: string) returns (count: nat, foundCin: Option<string>)
    ensures count == |Matches(text, 0)|
    ensures count == 0 <==> foundCin.None?
    ensures count > 0 ==> foundCin == Some(text[Matches(text, 0)[count - 1]..Matches(text, 0)[count - 1] + CinLength])
  {
    foundCin := None;
    count := 0;
    var pos: nat := 0;
    ghost var all := Matches(text, 0);
    ghost var last: nat := 0;
    var m := Find(text, pos);
    while m.Some?
      invariant count <= |all| && Matches(text, pos) == all[count..]
      invariant m == First(all[count..])
      invariant count == 0 <==> foundCin.None?
      invariant count > 0 ==> last == all[count - 1] && foundCin == Some(text[last..last + CinLength])
      decreases |text| - pos
    {
      var p := m.value;
      ScanStep(text, pos, all, count);
      last := p;
      foundCin := Some(text[p..p + CinLength]);
      count := count + 1;
      pos := p + CinLength;
      m := Find(text, pos);
    }
  }

  /** What `extractCINFromPDF` yields for the file `name` once its text is
      obtained: the identifier, or the message of the exception it throws. */
  function CinReply(name: string, text: string): Reply<string> {
    match Classify(text)
    case NotFound => Fail("No CIN found in " + name)
    case Multiple(_) => Fail("Multiple CINs found in " + name)
    case Found(cin) => Ok(cin)
  }

  /** Extraction succeeds exactly when the scan reports a single match, and
      then returns that match verbatim; otherwise it fails with the message
      for no match or for several. */
  lemma CinReplyContract(name: string, text: string)
    ensures var ms := Matches(text, 0);
      && (CinReply(name, text).Ok? <==> |ms| == 1)
      && (|ms| == 1 ==> CinReply(name, text).value == text[ms[0]..ms[0] + CinLength])
      && (|ms| == 1 ==> IsCin(CinReply(name, text).value))
      && (|ms| == 0 ==> CinReply(name, text) == Fail("No CIN found in " + name))
      && (|ms| > 1 ==> CinReply(name, text) == Fail("Multiple CINs found in " + name))
  {
    var ms := Matches(text, 0);
    if |ms| == 1 {
      FoundIsVerbatimMatch(text);
    }
  }

  /** The classification and exceptions of `extractCINFromPDF`: scan, then
      reject no match and more than one match. */
  method ExtractCin(name: string, text: string) returns (r: Reply<string>)
    ensures r == CinReply(name, text)
  {
    var count, foundCin := ScanText(text);
    if count == 0 {
      r := Fail("No CIN found in " + name);
    } else if count > 1 {
      r := Fail("Multiple CINs found in " + name);
    } else {
      r := Ok(foundCin.value);
    }
  }

  /** No identifier is reported exactly when the text holds no match anywhere. */
  lemma NotFoundIff(text: string)
    ensures Classify(text) == NotFound <==> forall j: nat :: !MatchesAt(text, j)
  {
    var ms := Matches(text, 0);
    MatchesAreScan(text, 0);
    if Classify(text) != NotFound {
      assert MatchesAt(text, ms[0]);
    } else {
      forall j: nat
        ensures !MatchesAt(text, j)
      {
        assert !Covered(ms, j);
      }
    }
  }

  /** Ambiguity is reported exactly when the text holds two matches that do
      not overlap; the count is the number of matches the scan reports. */
  lemma MultipleIff(text: string)
    ensures Classify(text).Multiple? <==>
      exists i: nat, j: nat :: MatchesAt(text, i) && MatchesAt(text, j) && i + CinLength <= j
    ensures Classify(text).Multiple? ==> Classify(text).count == |Matches(text, 0)| >= 2
  {
    var ms := Matches(text, 0);
    MatchesAreScan(text, 0);
    if Classify(text).Multiple? {
      assert MatchesAt(text, ms[0]) && MatchesAt(text, ms[1]) && ms[0] + CinLength <= ms[1];
    }
    if exists i: nat, j: nat :: MatchesAt(text, i) && MatchesAt(text, j) && i + CinLength <= j {
      var i: nat, j: nat :| MatchesAt(text, i) && MatchesAt(text, j) && i + CinLength <= j;
      assert Covered(ms, i);
      assert Covered(ms, j);
      var k :| 0 <= k < |ms| && ms[k] <= j < ms[k] + CinLength;
      var l :| 0 <= l < |ms| && ms[l] <= i < ms[l] + CinLength;
      assert k != l;
    }
  }

  /** The scan reports the single position `i` exactly when `i` is a match, no
      match starts before it, and none starts after it ends (matches that
      overlap it are skipped by the resumed search). */
  lemma SingleMatchIff(text: string, i: nat)
    ensures Matches(text, 0) == [i] <==>
      && MatchesAt(text, i)
      && (forall j: nat :: j < i ==> !MatchesAt(text, j))
      && (forall j: nat :: i + CinLength <= j ==> !MatchesAt(text, j))
  {
    var ms := Matches(text, 0);
    if ms == [i] {
      MatchesAreScan(text, 0);
      assert MatchesAt(text, ms[0]);
      forall j: nat | MatchesAt(text, j)
        ensures i <= j < i + CinLength
      {
        assert Covered(ms, j);
      }
    }
    if MatchesAt(text, i) && (forall j: nat :: j < i ==> !MatchesAt(text, j))
      && (forall j: nat :: i + CinLength <= j ==> !MatchesAt(text, j))
    {
      forall j: nat | MatchesAt(text, j)
        ensures Covered([i], j)
      {
        assert [i][0] <= j < [i][0] + CinLength;
      }
      assert IsScan(text, 0, [i]);
      ScanIsUnique(text, 0, [i]);
    }
  }

  /** A reported identifier is a verbatim seven-character slice of the text
      that the pattern matches, and it is the only match the scan reports. */
  lemma FoundIsVerbatimMatch(text: string)
    requires Classify(text).Found?
    ensures IsCin(Classify(text).cin)
    ensures exists i: nat :: Matches(text, 0) == [i] && Classify(text).cin == text[i..i + CinLength]
  {
    var ms := Matches(text, 0);
    MatchesAllMatch(text, 0);
    assert MatchesAt(text, ms[0]);
    MatchIsCin(text, ms[0]);
    assert ms == [ms[0]];
  }

  /** An overlapping second match is skipped: "AB123456" also matches
      "B123456" at position 1, yet only "AB12345" is reported. */
  lemma ExampleOverlapSkipped()
    ensures MatchesAt("AB123456", 1)
    ensures Classify("AB123456") == Found("AB12345")
  {
    var s := "AB123456";
    assert TwoLettersAt(s, 0);
    assert OneLetterAt(s, 1);
    assert Matches(s, 0) == [0];
  }

  /** Matching is unanchored: a longer run of digits or letters still yields
      the identifier-shaped part of it. */
  lemma ExampleUnanchored()
    ensures Classify("A1234567") == Found("A123456")
    ensures Classify("ABC12345") == Found("BC12345")
  {
    var s := "A1234567";
    assert OneLetterAt(s, 0);
    assert Matches(s, 0) == [0];
    var t := "ABC12345";
    assert !MatchesAt(t, 0) by {
      assert !IsDigit(t[2]);
    }
    assert TwoLettersAt(t, 1);
    assert Matches(t, 0) == [1];
  }

  /** Two equal identifiers are still ambiguous. */
  lemma ExampleRepeatedIsAmbiguous()
    ensures Classify("A123456 A123456") == Multiple(2)
  {
    var s := "A123456 A123456";
    assert OneLetterAt(s, 0);
    assert OneLetterAt(s, 8);
    assert !MatchesAt(s, 7) by {
      assert !IsUpper(s[7]);
    }
    assert Matches(s, 7) == [8];
    assert Matches(s, 0) == [0, 8];
  }

  /** Two different identifiers, one of each shape, are ambiguous. */
  lemma ExampleTwoShapes()
    ensures Classify("AB12345 C654321") == Multiple(2)
  {
    var s := "AB12345 C654321";
    assert TwoLettersAt(s, 0);
    assert OneLetterAt(s, 8);
    assert !MatchesAt(s, 7) by {
      assert !IsUpper(s[7]);
    }
    assert Matches(s, 7) == [8];
    assert Matches(s, 0) == [0, 8];
  }

  /** Lower-case letters and too short a digit run never match. */
  lemma ExampleRejected()
    ensures Classify("a123456") == NotFound
    ensures Classify("A12345") == NotFound
  {
    var s := "a123456";
    assert !MatchesAt(s, 0) by {
      assert !IsUpper(s[0]);
    }
    assert Matches(s, 0) == [];
  }
}
