/**
 * The definition provider: it asks the backend for the suggestions under
 * the cursor and turns the location of each one that has a location into an
 * editor location, parsing `file:line:column` with the regular expression
 * `^(.*?):([0-9]*?):([0-9]*)$`.
 */
module Definition {
  import opened Js
  import opened Backend

  /** The three groups of a successful match. */
  datatype LocationMatch = LocationMatch(file: string, line: string, column: string)

  /** After the colon at `k`, the rest is digits, a colon, digits: what `([0-9]*?):([0-9]*)$` accepts. */
  predicate TailShape(r: string)
  {
    exists m :: 0 <= m < |r| && TailAt(r, m)
  }

  /** The colon of the tail `r` is at `m`. */
  predicate TailAt(r: string, m: nat)
    requires m < |r|
  {
    r[m] == ':' && AllDigits(r[..m]) && AllDigits(r[m + 1..])
  }

  /** The first group can end at `k`: no line terminator before it, a colon at it, and a matching tail. */
  predicate SplitsAt(s: string, k: nat)
  {
    k < |s| && s[k] == ':' && NoLineTerminator(s[..k]) && TailShape(s[k + 1..])
  }

  /** The tail after the colon at `k`, tried the way the lazy `([0-9]*?)` does: the digits, then a colon, then digits to the end. */
  function MatchTail(s: string, k: nat): (r: Option<(string, string)>)
    requires k < |s|
    ensures r.Some? <==> TailShape(s[k + 1..])
    ensures r.Some? ==> s[k + 1..] == r.value.0 + ":" + r.value.1 && AllDigits(r.value.0) && AllDigits(r.value.1)
  {
    var line := DigitRun(s, k + 1);
    var c := k + 1 + |line|;
    if c < |s| && s[c] == ':' && AllDigits(s[c + 1..]) then
      TailFound(s, k, line);
      Some((line, s[c + 1..]))
    else
      TailMissing(s, k, line);
      None
  }

  lemma TailFound(s: string, k: nat, line: string)
    requires k < |s| && line == DigitRun(s, k + 1)
    requires k + 1 + |line| < |s| && s[k + 1 + |line|] == ':' && AllDigits(s[k + 2 + |line|..])
    ensures s[k + 1..] == line + ":" + s[k + 2 + |line|..] && TailShape(s[k + 1..])
  {
    var rest := s[k + 1..];
    assert rest[..|line|] == line && rest[|line|] == ':' && rest[|line| + 1..] == s[k + 2 + |line|..];
    assert rest == line + ":" + s[k + 2 + |line|..];
    assert TailAt(rest, |line|);
  }

  lemma TailMissing(s: string, k: nat, line: string)
    requires k < |s| && line == DigitRun(s, k + 1)
    requires !(k + 1 + |line| < |s| && s[k + 1 + |line|] == ':' && AllDigits(s[k + 2 + |line|..]))
    ensures !TailShape(s[k + 1..])
  {
    var rest := s[k + 1..];
    forall m | 0 <= m < |rest| && rest[m] == ':' && AllDigits(rest[..m])
      ensures !TailAt(rest, m)
    {
      TailColon(s, k, line, m);
      assert rest[m + 1..] == s[k + 2 + |line|..];
    }
  }

  /** A colon in the tail with only digits before it is the one right after the digit run. */
  lemma TailColon(s: string, k: nat, line: string, m: nat)
    requires k < |s| && line == DigitRun(s, k + 1)
    requires m < |s| - k - 1 && s[k + 1 + m] == ':' && AllDigits(s[k + 1..][..m])
    ensures m == |line|
  {
    assert forall i :: 0 <= i < |line| ==> s[k + 1 + i] == line[i];
    assert forall i :: k + 1 <= i < k + 1 + m ==> IsDigit(s[i]) by {
      forall i | k + 1 <= i < k + 1 + m ensures IsDigit(s[i]) {
        assert s[i] == s[k + 1..][..m][i - k - 1];
      }
    }
  }

  /** A split at `k`: the first group is everything before it. */
  lemma SplitHere(s: string, k: nat, line: string, column: string)
    requires k < |s| && s[k] == ':' && NoLineTerminator(s[..k])
    requires MatchTail(s, k) == Some((line, column))
    ensures SplitsAt(s, k) && s == s[..k] + ":" + line + ":" + column
  {
    assert s == s[..k] + ":" + s[k + 1..];
  }

  /** The first group cannot reach past a line terminator, so no split lies beyond one. */
  lemma BlockedByTerminator(s: string, k: nat)
    requires k < |s| && IsLineTerminator(s[k])
    ensures NoSplitIn(s, k, |s|)
  {
    forall j | k < j <= |s| ensures !NoLineTerminator(s[..j]) {
      assert s[..j][k] == s[k];
    }
  }

  /** The lazy first group, tried at `k`, `k + 1`, …: the leftmost split wins, and the group cannot cross a line terminator. */
  function MatchFrom(s: string, k: nat): (r: Option<LocationMatch>)
    requires k <= |s| && NoLineTerminator(s[..k])
    decreases |s| - k
    ensures r.Some? ==> k <= |r.value.file| < |s| && SplitsAt(s, |r.value.file|)
    ensures r.Some? ==> s == r.value.file + ":" + r.value.line + ":" + r.value.column
    ensures r.Some? ==> AllDigits(r.value.line) && AllDigits(r.value.column)
    ensures r.Some? ==> NoSplitIn(s, k, |r.value.file|)
    ensures r.None? ==> NoSplitIn(s, k, |s|)
  {
    if k == |s| then None
    else
      var tail := if s[k] == ':' then MatchTail(s, k) else None;
      if tail.Some? then
        SplitHere(s, k, tail.value.0, tail.value.1);
        Some(LocationMatch(s[..k], tail.value.0, tail.value.1))
      else if IsLineTerminator(s[k]) then
        BlockedByTerminator(s, k);
        None
      else
        assert s[..k + 1] == s[..k] + [s[k]];
        var r := MatchFrom(s, k + 1);
        NoSplitExtend(s, k, if r.Some? then |r.value.file| else |s|);
        r
  }

  /** No split at `k` and none in `(k, hi)`: none in `[k, hi)`. */
  lemma NoSplitExtend(s: string, k: nat, hi: nat)
    requires !SplitsAt(s, k) && NoSplitIn(s, k + 1, hi)
    ensures NoSplitIn(s, k, hi)
  {
  }

  /** `location.match(/^(.*?):([0-9]*?):([0-9]*)$/)`: the groups of the match, or null. */
  function MatchLocation(s: string): (r: Option<LocationMatch>)
    ensures r.Some? ==> IsMatch(s, r.value)
    ensures r.None? ==> NoSplit(s)
  {
    var r := MatchFrom(s, 0);
    if r.Some? then
      FileAndTail(s, r.value);
      r
    else r
  }

  lemma FileAndTail(s: string, m: LocationMatch)
    requires s == m.file + ":" + m.line + ":" + m.column
    ensures s[..|m.file|] == m.file && s[|m.file| + 1..] == m.line + ":" + m.column
  {
    assert s == m.file + ":" + (m.line + ":" + m.column);
  }

  /** The expression matches exactly when some split exists. */
  lemma MatchesIffSplit(s: string)
    ensures MatchLocation(s).Some? <==> !NoSplit(s)
  {
    var r := MatchLocation(s);
    if r.Some? {
      assert SplitsAt(s, |r.value.file|);
    }
  }

  /** The groups `m` are a match of `s`: `s` is the file, a colon, the line digits, a colon and the column digits, and the file holds no line terminator. */
  predicate IsMatch(s: string, m: LocationMatch)
  {
    s == m.file + ":" + m.line + ":" + m.column &&
    NoLineTerminator(m.file) && AllDigits(m.line) && AllDigits(m.column) &&
    SplitsAt(s, |m.file|) &&
    s[..|m.file|] == m.file && s[|m.file| + 1..] == m.line + ":" + m.column
  }

  /** No split lies in `[lo, hi)`. */
  predicate NoSplitIn(s: string, lo: nat, hi: nat)
  {
    forall k :: lo <= k < hi ==> !SplitsAt(s, k)
  }

  /** The expression does not match at all. */
  predicate NoSplit(s: string)
  {
    NoSplitIn(s, 0, |s|)
  }

  /** The tail holds exactly one colon, so at most one split exists: the first group ends at the second-to-last colon. */
  lemma SplitUnique(s: string, j: nat, k: nat)
    requires SplitsAt(s, j) && SplitsAt(s, k)
    ensures j == k
  {
    if j < k {
      OneColonInTail(s, j, k);
      OneColonInTail(s, k, k);
    } else if k < j {
      OneColonInTail(s, k, j);
      OneColonInTail(s, j, j);
    }
  }

  /** After a split at `j`, the only colon after `j` is the one inside its tail. */
  lemma OneColonInTail(s: string, j: nat, k: nat)
    requires SplitsAt(s, j) && j <= k < |s| && s[k] == ':'
    ensures j < k ==> forall i :: k < i < |s| ==> s[i] != ':'
    ensures j == k ==> exists i :: k < i < |s| && s[i] == ':'
  {
    var r := s[j + 1..];
    var m :| 0 <= m < |r| && TailAt(r, m);
    assert forall i :: j < i < j + 1 + m ==> IsDigit(s[i]) by {
      forall i | j < i < j + 1 + m ensures IsDigit(s[i]) {
        assert s[i] == r[..m][i - j - 1];
      }
    }
    assert forall i :: j + 1 + m < i < |s| ==> IsDigit(s[i]) by {
      forall i | j + 1 + m < i < |s| ensures IsDigit(s[i]) {
        assert s[i] == r[m + 1..][i - j - 2 - m];
      }
    }
    assert s[j + 1 + m] == ':';
  }

  /** Two tails of digits, a colon and more that are equal split at the same colon. */
  lemma DigitsColonUnique(a: string, b: string, c: string, d: string)
    requires AllDigits(a) && AllDigits(c) && a + ":" + b == c + ":" + d
    ensures a == c && b == d
  {
    var t := a + ":" + b;
    assert t[|a|] == ':' && t[|c|] == ':';
    assert forall i :: 0 <= i < |a| ==> t[i] == a[i];
    assert forall i :: 0 <= i < |c| ==> t[i] == c[i];
    assert |a| == |c|;
    assert a == t[..|a|] && c == t[..|c|];
    assert b == t[|a| + 1..] && d == t[|c| + 1..];
  }

  /** A location written as `file:line:column` splits after the file name. */
  lemma SplitOfParts(file: string, line: string, column: string)
    requires NoLineTerminator(file) && AllDigits(line) && AllDigits(column)
    ensures var s := file + ":" + line + ":" + column;
      SplitsAt(s, |file|) && s[..|file|] == file && s[|file| + 1..] == line + ":" + column
  {
    var s := file + ":" + line + ":" + column;
    var k := |file|;
    var r := s[k + 1..];
    assert r == line + ":" + column;
    assert r[|line|] == ':' && r[..|line|] == line && r[|line| + 1..] == column;
    assert TailAt(r, |line|);
    assert s[..k] == file;
  }

  /** The round trip: a location written as `file:line:column` parses back to its parts, whatever colons the file name holds. */
  lemma MatchRoundTrip(file: string, line: string, column: string)
    requires NoLineTerminator(file) && AllDigits(line) && AllDigits(column)
    ensures MatchLocation(file + ":" + line + ":" + column) == Some(LocationMatch(file, line, column))
  {
    var s := file + ":" + line + ":" + column;
    SplitOfParts(file, line, column);
    assert !NoSplit(s);
    var m := MatchLocation(s).value;
    SplitUnique(s, |file|, |m.file|);
    DigitsColonUnique(line, column, m.line, m.column);
  }

  /** An editor location: the file and a position whose parts came through `parseInt`. */
  datatype Location = Location(file: string, line: Number, character: Number)

  /** How the definition promise ends: resolved with locations, rejected for no suggestions, or never settled because the callback threw a TypeError on a location that does not match. */
  datatype Outcome = Resolved(locations: seq<Location>) | Rejected | Threw

  /** The location built from a match. */
  function LocationOf(m: LocationMatch): Location
    requires AllDigits(m.line) && AllDigits(m.column)
  {
    Location(m.file, ParseInt(m.line), ParseInt(m.column))
  }

  /** Every suggestion among the first `n` that has a location has one that matches. */
  predicate AllMatch(ss: seq<Suggestion>, n: nat)
    requires n <= |ss|
  {
    n == 0 || (AllMatch(ss, n - 1) && Matches(ss[n - 1]))
  }

  /** A suggestion without a location, or with one the expression matches. */
  predicate Matches(s: Suggestion)
  {
    s.location != "" ==> MatchLocation(s.location).Some?
  }

  /** The locations of the first `n` suggestions, in order, skipping those without a location. */
  function Locations(ss: seq<Suggestion>, n: nat): (ls: seq<Location>)
    requires n <= |ss| && AllMatch(ss, n)
    ensures |ls| <= n
  {
    if n == 0 then []
    else
      var prev := Locations(ss, n - 1);
      var loc := ss[n - 1].location;
      if loc != "" then prev + [LocationOf(MatchLocation(loc).value)] else prev
  }

  /** One step of the loop: suggestion `i` adds its location, if it has one. */
  lemma LocationsStep(ss: seq<Suggestion>, i: nat)
    requires i < |ss| && AllMatch(ss, i)
    requires ss[i].location != "" ==> MatchLocation(ss[i].location).Some?
    ensures AllMatch(ss, i + 1)
    ensures Locations(ss, i + 1) == Locations(ss, i) +
      (if ss[i].location != "" then [LocationOf(MatchLocation(ss[i].location).value)] else [])
  {
  }

  /** A location that does not match makes the whole list fail. */
  lemma {:induction false} MatchFails(ss: seq<Suggestion>, i: nat, n: nat)
    requires i < n <= |ss| && !Matches(ss[i])
    ensures !AllMatch(ss, n)
    decreases n
  {
    if i < n - 1 {
      MatchFails(ss, i, n - 1);
    }
  }

  /** The `forEach` body: a suggestion with a location adds the location it parses to; `matched` is false where the source throws. */
  method AddLocation(ss: seq<Suggestion>, i: nat, result: seq<Location>) returns (result': seq<Location>, matched: bool)
    requires i < |ss| && AllMatch(ss, i) && result == Locations(ss, i)
    ensures matched ==> AllMatch(ss, i + 1) && result' == Locations(ss, i + 1)
    ensures !matched ==> !AllMatch(ss, |ss|)
  {
    result' := result;
    matched := true;
    var location := ss[i].location;
    if location != "" {
      var m := MatchLocation(location);
      if m.None? {
        MatchFails(ss, i, |ss|);
        return result, false;
      }
      result' := result + [LocationOf(m.value)];
    }
    LocationsStep(ss, i);
  }

  /** `provideDefinition` once the backend has answered. */
  method ProvideDefinition(data: Response) returns (outcome: Outcome)
    ensures |data.suggestions| == 0 ==> outcome == Rejected
    ensures |data.suggestions| > 0 && AllMatch(data.suggestions, |data.suggestions|) ==>
      outcome == Resolved(Locations(data.suggestions, |data.suggestions|))
    ensures |data.suggestions| > 0 && !AllMatch(data.suggestions, |data.suggestions|) ==> outcome == Threw
  {
    outcome := ResolveLocations(data.suggestions);
  }

  /** The answer handler of `provideDefinition`, on the suggestions of the response. */
  method ResolveLocations(ss: seq<Suggestion>) returns (outcome: Outcome)
    ensures |ss| == 0 ==> outcome == Rejected
    ensures |ss| > 0 && AllMatch(ss, |ss|) ==> outcome == Resolved(Locations(ss, |ss|))
    ensures |ss| > 0 && !AllMatch(ss, |ss|) ==> outcome == Threw
  {
    if |ss| == 0 {
      return Rejected;
    }
    var result: seq<Location> := [];
    var i := 0;
    while i < |ss|
      invariant i <= |ss| && AllMatch(ss, i)
      invariant result == Locations(ss, i)
    {
      var matched;
      result, matched := AddLocation(ss, i, result);
      if !matched {
        return Threw;
      }
      i := i + 1;
    }
    assert i == |ss| && AllMatch(ss, |ss|);
    outcome := Resolved(result);
  }

  /** A location without line terminators always yields an editor location, its numbers NaN exactly where a group is empty. */
  lemma LocationNumbers(file: string, line: string, column: string)
    requires NoLineTerminator(file) && AllDigits(line) && AllDigits(column)
    ensures MatchLocation(file + ":" + line + ":" + column).Some?
    ensures var l := LocationOf(MatchLocation(file + ":" + line + ":" + column).value);
      l.file == file && (l.line.NaN? <==> line == "") && (l.character.NaN? <==> column == "")
  {
    MatchRoundTrip(file, line, column);
  }
}
