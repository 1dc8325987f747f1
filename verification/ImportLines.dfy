/**
 The import file format: one account a line, four fields between dashes, the client id and the refresh
 token in either order. Email validation, UUID syntax and the whitespace class are the libraries' own.
 */
module ImportLines {
  import opened Options

  const SEPARATOR: string := "----"

  datatype Env = Env(normalize: string -> Option<string>, isUuid: string -> bool, space: char -> bool)

  /** Email validation rejects the empty string and never yields one. */
  ghost predicate EnvOk(env: Env) {
    forall s :: env.normalize(s).Some? ==> s != "" && env.normalize(s).value != ""
  }

  datatype LineStatus = Valid | Invalid | Conflict

  datatype Parsed = Parsed(
    line: nat, status: LineStatus, email: Option<string>, normalized: Option<string>,
    clientId: Option<string>, password: Option<string>, token: Option<string>)

  // ---- splitting -----------------------------------------------------------------------------

  predicate SepAt(s: string, i: nat) {
    i + |SEPARATOR| <= |s| && s[i..i + |SEPARATOR|] == SEPARATOR
  }

  /** The first separator at or after `i`, or the length of the string if there is none. */
  function FindSep(s: string, i: nat): (at: nat)
    requires i <= |s|
    ensures i <= at <= |s|
    ensures forall k | i <= k < at :: !SepAt(s, k)
    ensures at < |s| ==> SepAt(s, at)
    decreases |s| - i
  {
    if i == |s| || SepAt(s, i) then i else FindSep(s, i + 1)
  }

  /** Splits at each separator, leftmost first, without overlap. */
  function Split(s: string): (parts: seq<string>)
    ensures parts != []
    decreases |s|
  {
    var at := FindSep(s, 0);
    if at == |s| then [s] else [s[..at]] + Split(s[at + |SEPARATOR|..])
  }

  function Join(parts: seq<string>): string
    requires parts != []
  {
    if |parts| == 1 then parts[0] else parts[0] + SEPARATOR + Join(parts[1..])
  }

  /** Joining undoes splitting, for every line. */
  lemma {:induction false} JoinSplit(s: string)
    ensures Join(Split(s)) == s
    decreases |s|
  {
    var at := FindSep(s, 0);
    if at < |s| {
      JoinSplit(s[at + |SEPARATOR|..]);
      assert Split(s)[1..] == Split(s[at + |SEPARATOR|..]);
      assert s == s[..at] + s[at..at + |SEPARATOR|] + s[at + |SEPARATOR|..];
    }
  }

  /** A field the separator after it does not run into: no four dashes inside, no dash at the end. */
  predicate Clean(part: string) {
    FindSep(part + SEPARATOR, 0) == |part|
  }

  /** In plain terms: no separator inside and no dash at the end. */
  lemma CleanMeans(part: string)
    ensures Clean(part) <==>
            (forall k | 0 <= k < |part| :: !SepAt(part, k)) && (part != "" ==> part[|part| - 1] != '-')
  {
    var t := part + SEPARATOR;
    forall k | 0 <= k < |part|
      ensures SepAt(t, k) <==>
              SepAt(part, k) || (k + |SEPARATOR| > |part| && forall i | k <= i < |part| :: part[i] == '-')
    {
      SepAcross(part, k);
    }
    assert SepAt(t, |part|);
    if part != "" && part[|part| - 1] == '-' { assert SepAt(t, |part| - 1); }
  }

  lemma SepAcross(part: string, k: nat)
    requires k < |part|
    ensures SepAt(part + SEPARATOR, k) <==>
            SepAt(part, k) || (k + |SEPARATOR| > |part| && forall i | k <= i < |part| :: part[i] == '-')
  {
    var t := part + SEPARATOR;
    assert t[k..k + 4] == [t[k], t[k + 1], t[k + 2], t[k + 3]];
    if k + 4 <= |part| { assert t[k..k + 4] == part[k..k + 4]; }
  }

  ghost predicate CleanParts(parts: seq<string>) {
    && parts != []
    && (forall k | 0 <= k < |parts| - 1 :: Clean(parts[k]))
    && FindSep(parts[|parts| - 1], 0) == |parts[|parts| - 1]|
  }

  lemma SepInPrefix(part: string, rest: string)
    requires Clean(part)
    ensures FindSep(part + SEPARATOR + rest, 0) == |part|
  {
    var s := part + SEPARATOR + rest;
    assert SepAt(s, |part|);
    forall k | 0 <= k < |part| ensures !SepAt(s, k) {
      assert !SepAt(part + SEPARATOR, k);
      assert (part + SEPARATOR)[k..k + |SEPARATOR|] == s[k..k + |SEPARATOR|];
    }
  }

  lemma SplitFirst(part: string, rest: string)
    requires Clean(part)
    ensures Split(part + SEPARATOR + rest) == [part] + Split(rest)
  {
    var s := part + SEPARATOR + rest;
    SepInPrefix(part, rest);
    assert s[..|part|] == part;
    assert s[|part| + |SEPARATOR|..] == rest;
  }

  lemma TailIsClean(parts: seq<string>)
    requires CleanParts(parts) && |parts| > 1
    ensures CleanParts(parts[1..]) && Clean(parts[0])
  {
    var rest := parts[1..];
    assert forall k | 0 <= k < |rest| :: rest[k] == parts[k + 1];
  }

  lemma {:induction false} SplitJoinClean(parts: seq<string>)
    requires CleanParts(parts)
    ensures Split(Join(parts)) == parts
    decreases |parts|
  {
    if |parts| > 1 {
      var rest := parts[1..];
      TailIsClean(parts);
      SplitJoinClean(rest);
      SplitFirst(parts[0], Join(rest));
      assert parts == [parts[0]] + rest;
    }
  }

  lemma SepInFront(s: string, n: nat, k: nat)
    requires k + |SEPARATOR| <= n <= |s|
    ensures SepAt(s[..n], k) <==> SepAt(s, k)
  {
    assert s[..n][k..k + |SEPARATOR|] == s[k..k + |SEPARATOR|];
  }

  lemma TakeSplits(s: string, at: nat)
    requires SepAt(s, at)
    ensures s[..at] + SEPARATOR == s[..at + |SEPARATOR|]
  {
    assert s[..at + |SEPARATOR|] == s[..at] + s[at..at + |SEPARATOR|];
  }

  lemma FirstPartIsClean(s: string, at: nat)
    requires SepAt(s, at) && forall k | 0 <= k < at :: !SepAt(s, k)
    ensures Clean(s[..at])
  {
    var t := s[..at] + SEPARATOR;
    TakeSplits(s, at);
    forall k | 0 <= k <= at ensures SepAt(t, k) <==> k == at {
      SepInFront(s, at + |SEPARATOR|, k);
    }
    assert SepAt(t, at);
  }

  lemma CleanExtends(part: string, tail: seq<string>)
    requires Clean(part) && CleanParts(tail)
    ensures CleanParts([part] + tail)
  {
    var parts := [part] + tail;
    assert forall k | 1 <= k < |parts| :: parts[k] == tail[k - 1];
  }

  lemma {:induction false} SplitIsClean(s: string)
    ensures CleanParts(Split(s))
    decreases |s|
  {
    var at := FindSep(s, 0);
    if at < |s| {
      SplitIsClean(s[at + |SEPARATOR|..]);
      FirstPartIsClean(s, at);
      CleanExtends(s[..at], Split(s[at + |SEPARATOR|..]));
    }
  }

  /** Splitting recovers the joined fields exactly when no field runs into a separator. */
  lemma SplitJoinIff(parts: seq<string>)
    requires parts != []
    ensures Split(Join(parts)) == parts <==> CleanParts(parts)
  {
    SplitIsClean(Join(parts));
    if CleanParts(parts) { SplitJoinClean(parts); }
  }

  /** Four fields between four dashes each; none holds four dashes, and none before a separator ends in a dash. */
  ghost predicate FourFields(s: string, f: seq<string>) {
    && |f| == 4
    && s == f[0] + "----" + f[1] + "----" + f[2] + "----" + f[3]
    && NoDashes(f[0]) && NoDashes(f[1]) && NoDashes(f[2]) && NoDashes(f[3])
    && EndsWell(f[0]) && EndsWell(f[1]) && EndsWell(f[2])
  }

  ghost predicate FourDashes(part: string, i: nat) {
    i + 4 <= |part| && part[i..i + 4] == "----"
  }

  ghost predicate NoDashes(part: string) {
    forall i: nat :: !FourDashes(part, i)
  }

  ghost predicate EndsWell(part: string) {
    part != "" ==> part[|part| - 1] != '-'
  }

  lemma PartMeans(part: string)
    ensures FindSep(part, 0) == |part| <==> NoDashes(part)
    ensures Clean(part) <==> NoDashes(part) && EndsWell(part)
  {
    CleanMeans(part);
    if forall k | 0 <= k < |part| :: !SepAt(part, k) {
      forall i: nat ensures !FourDashes(part, i) {
        assert i < |part| ==> !SepAt(part, i);
      }
    }
    forall k | 0 <= k < |part| && SepAt(part, k) ensures FourDashes(part, k) {
    }
  }

  lemma FourAreClean(f: seq<string>)
    requires |f| == 4
    ensures CleanParts(f) <==>
            && Clean(f[0]) && Clean(f[1]) && Clean(f[2]) && FindSep(f[3], 0) == |f[3]|
  {
  }

  lemma JoinFour(f: seq<string>)
    requires |f| == 4
    ensures Join(f) == f[0] + "----" + f[1] + "----" + f[2] + "----" + f[3]
  {
    var g := f[1..];
    var h := g[1..];
    assert h[1..] == [f[3]];
    assert Join(h) == f[2] + "----" + f[3];
    assert Join(g) == f[1] + "----" + Join(h);
    assert Join(f) == f[0] + "----" + Join(g);
  }

  /** A line splits into four parts exactly when it is written out of four fields, and then into those. */
  lemma FourFieldsMeans(s: string, f: seq<string>)
    ensures FourFields(s, f) <==> |f| == 4 && Split(s) == f
  {
    if |f| == 4 {
      JoinFour(f);
      JoinSplit(s);
      SplitJoinIff(f);
      FourAreClean(f);
      PartMeans(f[0]);
      PartMeans(f[1]);
      PartMeans(f[2]);
      PartMeans(f[3]);
    }
  }

  // ---- one line ------------------------------------------------------------------------------

  function StripLeft(env: Env, s: string): string {
    if s != "" && env.space(s[0]) then StripLeft(env, s[1..]) else s
  }

  function StripRight(env: Env, s: string): string {
    if s != "" && env.space(s[|s| - 1]) then StripRight(env, s[..|s| - 1]) else s
  }

  function Strip(env: Env, s: string): string {
    StripRight(env, StripLeft(env, s))
  }

  /** What is left lies in one piece with nothing but spaces before and after, and has no space at its ends. */
  lemma StripMeans(env: Env, s: string) returns (a: nat, b: nat)
    ensures a <= b <= |s| && Strip(env, s) == s[a..b] && Stripped(env, s[a..b])
    ensures forall i | 0 <= i < a || b <= i < |s| :: env.space(s[i])
  {
    a := StripLeftMeans(env, s);
    var n := StripRightMeans(env, s[a..]);
    b := a + n;
    assert s[a..][..n] == s[a..b];
    forall i | b <= i < |s| ensures env.space(s[i]) {
      assert s[i] == s[a..][i - a];
    }
  }

  lemma {:induction false} StripLeftMeans(env: Env, s: string) returns (a: nat)
    ensures a <= |s| && StripLeft(env, s) == s[a..] && (a < |s| ==> !env.space(s[a]))
    ensures forall i | 0 <= i < a :: env.space(s[i])
  {
    a := 0;
    if s != "" && env.space(s[0]) {
      var n := StripLeftMeans(env, s[1..]);
      a := n + 1;
      assert s[a..] == s[1..][n..];
      forall i | 0 <= i < a ensures env.space(s[i]) {
        if i > 0 { assert s[i] == s[1..][i - 1]; }
      }
    }
  }

  lemma {:induction false} StripRightMeans(env: Env, s: string) returns (b: nat)
    ensures b <= |s| && StripRight(env, s) == s[..b] && (b > 0 ==> !env.space(s[b - 1]))
    ensures forall i | b <= i < |s| :: env.space(s[i])
  {
    b := |s|;
    if s != "" && env.space(s[|s| - 1]) {
      var t := s[..|s| - 1];
      b := StripRightMeans(env, t);
      assert t[..b] == s[..b];
      forall i | b <= i < |s| ensures env.space(s[i]) {
        if i < |t| { assert s[i] == t[i]; }
      }
    }
  }

  function StripAll(env: Env, parts: seq<string>): (out: seq<string>)
    ensures |out| == |parts| && forall k | 0 <= k < |parts| :: out[k] == Strip(env, parts[k])
  {
    if parts == [] then [] else [Strip(env, parts[0])] + StripAll(env, parts[1..])
  }

  function Rejected(line: nat, first: string): Parsed {
    Parsed(line, Invalid, Some(first), None, None, None, None)
  }

  function ParseLine(env: Env, s: string, line: nat, accountType: string): Parsed {
    var parts := StripAll(env, Split(s));
    var first := if parts == [] then "" else parts[0];
    if accountType != "outlook" || |parts| != 4 then Rejected(line, first)
    else
      var normalized := env.normalize(parts[0]);
      if normalized.None? then Rejected(line, first)
      else if !env.isUuid(parts[2]) && !env.isUuid(parts[3]) then Rejected(line, first)
      else
        var clientId := if env.isUuid(parts[2]) then parts[2] else parts[3];
        var token := if env.isUuid(parts[2]) then parts[3] else parts[2];
        if token == "" then Rejected(line, first)
        else Parsed(line, Valid, Some(parts[0]), normalized, Some(clientId),
                    if parts[1] == "" then None else Some(parts[1]), Some(token))
  }

  /**
   A line of four fields is valid exactly for an outlook account with a valid address, a client id in
   either place and a token in the other; the first place wins if both hold an id.
   */
  lemma AcceptsMeans(env: Env, s: string, line: nat, accountType: string, f: seq<string>)
    requires FourFields(s, f)
    ensures var (email, third, fourth) := (Strip(env, f[0]), Strip(env, f[2]), Strip(env, f[3]));
            var password := if Strip(env, f[1]) == "" then None else Some(Strip(env, f[1]));
            ParseLine(env, s, line, accountType)
            == if accountType == "outlook" && env.normalize(email).Some? && env.isUuid(third) && fourth != ""
               then Parsed(line, Valid, Some(email), env.normalize(email), Some(third), password, Some(fourth))
               else if accountType == "outlook" && env.normalize(email).Some? && !env.isUuid(third)
                       && env.isUuid(fourth) && third != ""
               then Parsed(line, Valid, Some(email), env.normalize(email), Some(fourth), password, Some(third))
               else Parsed(line, Invalid, Some(email), None, None, None, None)
  {
    FourFieldsMeans(s, f);
  }

  /** Every other line is invalid, and keeps nothing but its first part for an address. */
  lemma RejectsMeans(env: Env, s: string, line: nat, accountType: string)
    requires forall f :: !FourFields(s, f)
    ensures ParseLine(env, s, line, accountType)
            == Parsed(line, Invalid, Some(Strip(env, Split(s)[0])), None, None, None, None)
  {
    FourFieldsMeans(s, Split(s));
  }

  predicate Stripped(env: Env, s: string) {
    s == "" || (!env.space(s[0]) && !env.space(s[|s| - 1]))
  }

  lemma StripAllStripped(env: Env, parts: seq<string>)
    requires |parts| == 4 && forall k | 0 <= k < 4 :: Stripped(env, parts[k])
    ensures StripAll(env, parts) == parts
  {
    assert parts == [parts[0]] + [parts[1]] + [parts[2]] + [parts[3]];
    assert parts[1..][1..][1..][1..] == [];
    assert parts[1..][0] == parts[1] && parts[1..][1..][0] == parts[2] && parts[1..][1..][1..][0] == parts[3];
    assert StripAll(env, parts[1..][1..][1..]) == [parts[3]];
    assert StripAll(env, parts[1..][1..]) == [parts[2], parts[3]];
  }

  /** A well-formed account written out in either field order reads back as itself. */
  lemma LineRoundTrip(env: Env, email: string, password: string, clientId: string, token: string, line: nat,
                      swapped: bool)
    requires var parts := if swapped then [email, password, token, clientId] else [email, password, clientId, token];
             CleanParts(parts) && forall k | 0 <= k < 4 :: Stripped(env, parts[k])
    requires env.normalize(email).Some? && env.isUuid(clientId) && token != ""
    requires swapped ==> !env.isUuid(token)
    ensures var parts := if swapped then [email, password, token, clientId] else [email, password, clientId, token];
            ParseLine(env, Join(parts), line, "outlook")
            == Parsed(line, Valid, Some(email), env.normalize(email), Some(clientId),
                      if password == "" then None else Some(password), Some(token))
  {
    var parts := if swapped then [email, password, token, clientId] else [email, password, clientId, token];
    SplitJoinClean(parts);
    StripAllStripped(env, parts);
  }

  // ---- a whole file --------------------------------------------------------------------------

  /** The lines that are not blank, stripped, with their numbers counted from `next`. */
  function Numbered(env: Env, lines: seq<string>, next: nat): seq<(nat, string)> {
    if lines == [] then []
    else
      (if Strip(env, lines[0]) != "" then [(next, Strip(env, lines[0]))] else [])
      + Numbered(env, lines[1..], next + 1)
  }

  /** Line numbers increase and point at the lines they came from; there are no blank lines. */
  ghost predicate NumbersOk(env: Env, lines: seq<string>, next: nat, ns: seq<(nat, string)>) {
    && (forall k | 0 <= k < |ns| ::
          next <= ns[k].0 < next + |lines| && ns[k].1 == Strip(env, lines[ns[k].0 - next]) && ns[k].1 != "")
    && (forall i, j | 0 <= i < j < |ns| :: ns[i].0 < ns[j].0)
  }

  lemma {:induction false} NumbersPointBack(env: Env, lines: seq<string>, next: nat)
    ensures NumbersOk(env, lines, next, Numbered(env, lines, next))
  {
    if lines != [] {
      var rest := Numbered(env, lines[1..], next + 1);
      NumbersPointBack(env, lines[1..], next + 1);
      NumbersStep(env, lines, next, rest);
      assert Numbered(env, lines, next)
          == if Strip(env, lines[0]) != "" then [(next, Strip(env, lines[0]))] + rest else rest;
    }
  }

  /** No line that is not blank is lost. */
  lemma {:induction false} NonblankIsKept(env: Env, lines: seq<string>, next: nat, k: nat)
    requires k < |lines| && Strip(env, lines[k]) != ""
    ensures (next + k, Strip(env, lines[k])) in Numbered(env, lines, next)
  {
    if k > 0 {
      assert lines[1..][k - 1] == lines[k];
      NonblankIsKept(env, lines[1..], next + 1, k - 1);
    }
  }

  /** Numbering keeps exactly the lines that are not blank, each under the number of its place. */
  lemma NumbersIncrease(env: Env, lines: seq<string>, next: nat)
    ensures NumbersOk(env, lines, next, Numbered(env, lines, next))
    ensures forall k | 0 <= k < |lines| && Strip(env, lines[k]) != "" ::
              (next + k, Strip(env, lines[k])) in Numbered(env, lines, next)
  {
    NumbersPointBack(env, lines, next);
    forall k | 0 <= k < |lines| && Strip(env, lines[k]) != ""
      ensures (next + k, Strip(env, lines[k])) in Numbered(env, lines, next)
    {
      NonblankIsKept(env, lines, next, k);
    }
  }

  lemma NumbersStep(env: Env, lines: seq<string>, next: nat, rest: seq<(nat, string)>)
    requires lines != [] && NumbersOk(env, lines[1..], next + 1, rest)
    ensures NumbersOk(env, lines, next, rest)
    ensures Strip(env, lines[0]) != "" ==> NumbersOk(env, lines, next, [(next, Strip(env, lines[0]))] + rest)
  {
    forall k | 0 <= k < |rest| ensures rest[k].1 == Strip(env, lines[rest[k].0 - next]) {
      assert lines[1..][rest[k].0 - (next + 1)] == lines[rest[k].0 - next];
    }
  }

  function ParseAll(env: Env, numbered: seq<(nat, string)>, accountType: string): seq<Parsed> {
    seq(|numbered|, k requires 0 <= k < |numbered| =>
      ParseLine(env, numbered[k].1, numbered[k].0, accountType))
  }

  /** Some earlier line already has this line's email. */
  predicate RepeatsEarlier(parsed: seq<Parsed>, k: nat)
    requires k < |parsed|
  {
    && parsed[k].status == Valid
    && exists i :: 0 <= i < k && parsed[i].status == Valid && parsed[i].normalized == parsed[k].normalized
  }

  /** The file as the service reads it: later repeats of an email are conflicts. */
  function Deduped(parsed: seq<Parsed>): seq<Parsed> {
    seq(|parsed|, k requires 0 <= k < |parsed| => DedupedAt(parsed, k))
  }

  function DedupedAt(parsed: seq<Parsed>, k: nat): Parsed
    requires k < |parsed|
  {
    if RepeatsEarlier(parsed, k) then parsed[k].(status := Conflict) else parsed[k]
  }

  lemma ParsedHaveEmails(env: Env, numbered: seq<(nat, string)>, accountType: string)
    requires EnvOk(env)
    ensures forall k | 0 <= k < |numbered| :: HasEmail(ParseAll(env, numbered, accountType)[k])
  {
  }

  /** A valid line carries a nonempty address and a nonempty normalized address. */
  predicate HasEmail(p: Parsed) {
    p.status == Valid ==>
      p.email.Some? && p.email.value != "" && p.normalized.Some? && p.normalized.value != ""
  }

  /** A line turns into a conflict exactly when it is valid and an earlier valid line has its email; else it stays. */
  ghost predicate MarksRepeats(base: seq<Parsed>, parsed: seq<Parsed>) {
    && |parsed| == |base|
    && forall k | 0 <= k < |base| ::
         parsed[k] == if base[k].status == Valid
                         && exists i :: 0 <= i < k && base[i].status == Valid
                                        && base[i].normalized == base[k].normalized
                      then base[k].(status := Conflict) else base[k]
  }

  /** The emails of the valid lines among the first `n`. */
  function EmailsOf(parsed: seq<Parsed>, n: nat): set<string>
    requires n <= |parsed|
  {
    set i | 0 <= i < n && parsed[i].status == Valid && parsed[i].normalized.Some? :: parsed[i].normalized.value
  }

  lemma SeenMeansRepeat(parsed: seq<Parsed>, n: nat)
    requires n < |parsed| && parsed[n].status == Valid && parsed[n].normalized.Some?
    ensures RepeatsEarlier(parsed, n) <==> parsed[n].normalized.value in EmailsOf(parsed, n)
  {
    if RepeatsEarlier(parsed, n) {
      var i :| 0 <= i < n && parsed[i].status == Valid && parsed[i].normalized == parsed[n].normalized;
      assert parsed[i].normalized.value in EmailsOf(parsed, n);
    }
  }

  /** The service's pass with a `seen` set marks exactly the repeats. */
  method MarkRepeats(base: seq<Parsed>) returns (parsed: seq<Parsed>)
    requires forall k | 0 <= k < |base| :: HasEmail(base[k])
    ensures parsed == Deduped(base)
    ensures MarksRepeats(base, parsed)
  {
    parsed := base;
    var seen: set<string> := {};
    for n := 0 to |base|
      invariant |parsed| == |base|
      invariant forall k | 0 <= k < n :: parsed[k] == DedupedAt(base, k)
      invariant forall k | n <= k < |base| :: parsed[k] == base[k]
      invariant seen == EmailsOf(base, n)
    {
      var item := parsed[n];
      EmailsGrow(base, n);
      if item.status != Valid || item.normalized.None? || item.normalized.value == "" { continue; }
      SeenMeansRepeat(base, n);
      if item.normalized.value in seen {
        parsed := parsed[n := item.(status := Conflict)];
      }
      seen := seen + {item.normalized.value};
    }
  }

  lemma EmailsGrow(parsed: seq<Parsed>, n: nat)
    requires n < |parsed|
    ensures EmailsOf(parsed, n + 1)
            == EmailsOf(parsed, n) + if parsed[n].status == Valid && parsed[n].normalized.Some?
                                     then {parsed[n].normalized.value} else {}
  {
  }

  method ParseImportContent(env: Env, lines: seq<string>, accountType: string) returns (parsed: seq<Parsed>)
    requires EnvOk(env)
    ensures parsed == Deduped(ParseAll(env, Numbered(env, lines, 1), accountType))
    ensures ReadsFile(env, lines, accountType, parsed)
    ensures forall k | 0 <= k < |parsed| :: HasEmail(parsed[k])
    ensures forall i, k | 0 <= i < k < |parsed| && parsed[i].status == parsed[k].status == Valid ::
              parsed[i].normalized != parsed[k].normalized
  {
    var base := ParseAll(env, Numbered(env, lines, 1), accountType);
    ParsedHaveEmails(env, Numbered(env, lines, 1), accountType);
    parsed := MarkRepeats(base);
    DedupedIsDistinct(base);
    FileIsRead(env, lines, accountType, base, parsed);
  }

  /**
   Each line that is not blank is read once, stripped, under its number from one on and in order, and
   counts as a conflict exactly if its email is that of an earlier valid line.
   */
  ghost predicate ReadsFile(env: Env, lines: seq<string>, accountType: string, parsed: seq<Parsed>) {
    && (forall i, k | 0 <= i < k < |parsed| :: parsed[i].line < parsed[k].line)
    && (forall n | 0 <= n < |lines| :: Strip(env, lines[n]) != "" <==> IsRead(parsed, n + 1))
    && exists base :: MarksRepeats(base, parsed) && ReadsLines(env, lines, accountType, base)
  }

  ghost predicate IsRead(parsed: seq<Parsed>, line: nat) {
    exists k :: 0 <= k < |parsed| && parsed[k].line == line
  }

  ghost predicate ReadsLines(env: Env, lines: seq<string>, accountType: string, base: seq<Parsed>) {
    forall k | 0 <= k < |base| ::
      && 1 <= base[k].line <= |lines|
      && base[k] == ParseLine(env, Strip(env, lines[base[k].line - 1]), base[k].line, accountType)
  }

  lemma FileIsRead(env: Env, lines: seq<string>, accountType: string, base: seq<Parsed>, parsed: seq<Parsed>)
    requires base == ParseAll(env, Numbered(env, lines, 1), accountType) && MarksRepeats(base, parsed)
    ensures ReadsFile(env, lines, accountType, parsed)
  {
    var ns := Numbered(env, lines, 1);
    NumbersPointBack(env, lines, 1);
    LinesStay(env, accountType, ns, base, parsed);
    NonblankAreRead(env, lines, parsed);
    LinesAreRead(env, lines, accountType, ns, base);
  }

  lemma LinesStay(env: Env, accountType: string, ns: seq<(nat, string)>, base: seq<Parsed>, parsed: seq<Parsed>)
    requires base == ParseAll(env, ns, accountType) && MarksRepeats(base, parsed)
    ensures |parsed| == |base| == |ns|
    ensures forall k | 0 <= k < |ns| :: parsed[k].line == ns[k].0
  {
  }

  lemma KeptIsRead(ns: seq<(nat, string)>, parsed: seq<Parsed>, line: nat, text: string)
    requires |parsed| == |ns| && forall k | 0 <= k < |ns| :: parsed[k].line == ns[k].0
    requires (line, text) in ns
    ensures IsRead(parsed, line)
  {
    var k :| 0 <= k < |ns| && ns[k] == (line, text);
    assert parsed[k].line == line;
  }

  lemma ReadIsNonblank(env: Env, lines: seq<string>, ns: seq<(nat, string)>, parsed: seq<Parsed>, n: nat)
    requires NumbersOk(env, lines, 1, ns) && |parsed| == |ns|
    requires forall k | 0 <= k < |ns| :: parsed[k].line == ns[k].0
    requires n < |lines| && IsRead(parsed, n + 1)
    ensures Strip(env, lines[n]) != ""
  {
    var k :| 0 <= k < |parsed| && parsed[k].line == n + 1;
    assert ns[k].0 == n + 1 && ns[k].1 == Strip(env, lines[ns[k].0 - 1]);
  }

  lemma NonblankAreRead(env: Env, lines: seq<string>, parsed: seq<Parsed>)
    requires var ns := Numbered(env, lines, 1);
             |parsed| == |ns| && forall k | 0 <= k < |ns| :: parsed[k].line == ns[k].0
    ensures forall n | 0 <= n < |lines| :: Strip(env, lines[n]) != "" <==> IsRead(parsed, n + 1)
  {
    var ns := Numbered(env, lines, 1);
    NumbersPointBack(env, lines, 1);
    forall n | 0 <= n < |lines| ensures Strip(env, lines[n]) != "" <==> IsRead(parsed, n + 1) {
      if Strip(env, lines[n]) != "" {
        NonblankIsKept(env, lines, 1, n);
        KeptIsRead(ns, parsed, n + 1, Strip(env, lines[n]));
      }
      if IsRead(parsed, n + 1) { ReadIsNonblank(env, lines, ns, parsed, n); }
    }
  }

  lemma LinesAreRead(env: Env, lines: seq<string>, accountType: string, ns: seq<(nat, string)>, base: seq<Parsed>)
    requires NumbersOk(env, lines, 1, ns) && base == ParseAll(env, ns, accountType)
    ensures ReadsLines(env, lines, accountType, base)
  {
  }

  lemma DedupedIsDistinct(parsed: seq<Parsed>)
    ensures forall i, k | 0 <= i < k < |parsed| && Deduped(parsed)[i].status == Deduped(parsed)[k].status == Valid ::
              Deduped(parsed)[i].normalized != Deduped(parsed)[k].normalized
  {
  }

  /** Deduplication loses no email: the first line with it stays valid. */
  lemma {:induction false} FirstStaysValid(parsed: seq<Parsed>, k: nat) returns (first: nat)
    requires k < |parsed| && parsed[k].status == Valid
    ensures first <= k && Deduped(parsed)[first].status == Valid
    ensures parsed[first].normalized == parsed[k].normalized
    decreases k
  {
    if i :| 0 <= i < k && parsed[i].status == Valid && parsed[i].normalized == parsed[k].normalized {
      first := FirstStaysValid(parsed, i);
    } else {
      first := k;
    }
  }
}
