/** Removing one endpoint from an OpenSSH known-hosts file. Base64 decoding and the HMAC comparison are
    one parameter: `digest(salt, expected, endpoint)` is `None` where decoding fails. */
module KnownHosts {
  import opened Common

  datatype Error = InvalidEntry | UnsupportedAlgorithm | MissingSalt | MissingDigest | UnexpectedFields | InvalidDigest | Rejected
  datatype Result<+T> = Success(value: T) | Failure(error: Error)

  type Digest = (string, string, string) -> Option<bool>

  // ------------------------------------------------------------------ text helpers

  /** Unicode White_Space. */
  predicate Space(c: char) {
    var n := c as int;
    || 0x09 <= n <= 0x0D || n == 0x20 || n == 0x85 || n == 0xA0 || n == 0x1680 || 0x2000 <= n <= 0x200A
    || n == 0x2028 || n == 0x2029 || n == 0x202F || n == 0x205F || n == 0x3000
  }

  function TrimStart(s: string): string { if s != [] && Space(s[0]) then TrimStart(s[1..]) else s }

  function TrimEnd(s: string): string { if s != [] && Space(s[|s| - 1]) then TrimEnd(s[..|s| - 1]) else s }

  function Trim(s: string): string { TrimEnd(TrimStart(s)) }

  function Split(s: string, c: char): (parts: seq<string>)
    ensures parts != []
  {
    if s == [] then [[]]
    else
      var rest := Split(s[1..], c);
      if s[0] == c then [[]] + rest else [[s[0]] + rest[0]] + rest[1..]
  }

  function Join(parts: seq<string>, c: char): string {
    if parts == [] then [] else if |parts| == 1 then parts[0] else parts[0] + [c] + Join(parts[1..], c)
  }

  function WordLength(s: string): (n: nat)
    ensures n <= |s| && (forall k | 0 <= k < n :: !Space(s[k])) && (n < |s| ==> Space(s[n]))
  {
    if s == [] || Space(s[0]) then 0 else 1 + WordLength(s[1..])
  }

  /** `split_whitespace`. */
  function Words(s: string): seq<string>
    decreases |s|
  {
    if s == [] then []
    else if Space(s[0]) then Words(s[1..])
    else [s[..WordLength(s)]] + Words(s[WordLength(s)..])
  }

  predicate Unspaced(s: string) { forall k | 0 <= k < |s| :: !Space(s[k]) }

  // ----------------------------------------------------------- splitting and joining

  lemma {:induction false} SplitPieces(s: string, c: char)
    ensures forall p | p in Split(s, c) :: c !in p
  {
    if s != [] {
      SplitPieces(s[1..], c);
      var rest, parts := Split(s[1..], c), Split(s, c);
      assert parts == [parts[0]] + if s[0] == c then rest else rest[1..];
      assert rest[0] in rest && forall p | p in parts :: p == parts[0] || p in rest;
      assert c !in parts[0];
    }
  }

  lemma {:induction false} SplitWithout(s: string, c: char)
    requires c !in s
    ensures Split(s, c) == [s]
  {
    if s != [] {
      SplitWithout(s[1..], c);
      assert [s[0]] + s[1..] == s;
    }
  }

  lemma {:induction false} SplitFirst(p: string, c: char, rest: string)
    requires c !in p
    ensures Split(p + [c] + rest, c) == [p] + Split(rest, c)
    decreases |p|
  {
    var s := p + [c] + rest;
    if p == [] {
      assert s[0] == c && s[1..] == rest;
    } else {
      assert s[0] == p[0] && s[1..] == p[1..] + [c] + rest;
      SplitFirst(p[1..], c, rest);
      assert [p[0]] + p[1..] == p;
    }
  }

  /** Splitting undoes joining. */
  lemma {:induction false} SplitJoin(parts: seq<string>, c: char)
    requires parts != [] && forall k | 0 <= k < |parts| :: c !in parts[k]
    ensures Split(Join(parts, c), c) == parts
  {
    if |parts| == 1 {
      SplitWithout(parts[0], c);
    } else {
      SplitJoin(parts[1..], c);
      SplitFirst(parts[0], c, Join(parts[1..], c));
    }
  }

  /** Joining undoes splitting. */
  lemma {:induction false} JoinSplit(s: string, c: char)
    ensures Join(Split(s, c), c) == s
  {
    if s != [] {
      JoinSplit(s[1..], c);
      var rest := Split(s[1..], c);
      if s[0] == c {
        assert ([[]] + rest)[1..] == rest && [] + [c] + s[1..] == s;
      } else {
        var first := [[s[0]] + rest[0]] + rest[1..];
        assert first[1..] == rest[1..];
        assert [s[0]] + s[1..] == s;
      }
    }
  }

  lemma {:induction false} JoinUnspaced(parts: seq<string>)
    requires forall k | 0 <= k < |parts| :: Unspaced(parts[k])
    ensures Unspaced(Join(parts, ','))
  {
    if |parts| > 1 { JoinUnspaced(parts[1..]); }
  }

  lemma {:induction false} SplitUnspaced(s: string, c: char)
    requires Unspaced(s)
    ensures forall p | p in Split(s, c) :: Unspaced(p)
  {
    if s != [] {
      SplitUnspaced(s[1..], c);
      var rest, parts := Split(s[1..], c), Split(s, c);
      assert parts == [parts[0]] + if s[0] == c then rest else rest[1..];
      assert rest[0] in rest && forall p | p in parts :: p == parts[0] || p in rest;
    }
  }

  // --------------------------------------------------------------- words and trimming

  lemma {:induction false} WordsUnspaced(s: string)
    ensures forall k | 0 <= k < |Words(s)| :: Words(s)[k] != [] && Unspaced(Words(s)[k])
    decreases |s|
  {
    if s != [] { WordsUnspaced(if Space(s[0]) then s[1..] else s[WordLength(s)..]); }
  }

  function NonEmpty(parts: seq<string>): (r: seq<string>)
    ensures |r| <= |parts| && (forall k | 0 <= k < |r| :: r[k] != [])
    ensures (exists k :: 0 <= k < |parts| && parts[k] == []) ==> |r| < |parts|
    ensures (forall k | 0 <= k < |parts| :: parts[k] != []) ==> r == parts
  {
    if parts == [] then [] else (if parts[0] == [] then [] else [parts[0]]) + NonEmpty(parts[1..])
  }

  lemma {:induction false} WordsOfWord(p: string, rest: string)
    requires Unspaced(p) && (rest == [] || Space(rest[0]))
    ensures Words(p + rest) == (if p == [] then [] else [p]) + Words(rest)
  {
    if p == [] {
      assert p + rest == rest;
    } else {
      var s := p + rest;
      assert s[0] == p[0] && WordLength(s) == |p| by {
        assert forall k | 0 <= k < |p| :: s[k] == p[k];
        assert rest != [] ==> s[|p|] == rest[0];
      }
      assert s[..|p|] == p && s[|p|..] == rest;
    }
  }

  /** The words of a joined line are its nonempty fields. */
  lemma {:induction false} WordsJoin(parts: seq<string>)
    requires forall k | 0 <= k < |parts| :: Unspaced(parts[k])
    ensures Words(Join(parts, ' ')) == NonEmpty(parts)
  {
    if |parts| == 1 {
      WordsOfWord(parts[0], []);
      assert parts[0] + [] == parts[0] && NonEmpty(parts[1..]) == [];
    } else if |parts| > 1 {
      WordsJoin(parts[1..]);
      var rest := [' '] + Join(parts[1..], ' ');
      WordsOfWord(parts[0], rest);
      assert parts[0] + [' '] + Join(parts[1..], ' ') == parts[0] + rest && rest[1..] == Join(parts[1..], ' ');
    }
  }

  lemma {:induction false} TrimStartKeepsWords(s: string)
    ensures Words(TrimStart(s)) == Words(s)
    ensures TrimStart(s) == [] || !Space(TrimStart(s)[0])
  {
    if s != [] && Space(s[0]) { TrimStartKeepsWords(s[1..]); }
  }

  lemma {:induction false} WordsTrailingSpace(s: string, c: char)
    requires Space(c)
    ensures Words(s + [c]) == Words(s)
    decreases |s|
  {
    if s == [] {
      assert (s + [c])[1..] == [];
    } else if Space(s[0]) {
      assert (s + [c])[1..] == s[1..] + [c];
      WordsTrailingSpace(s[1..], c);
    } else {
      var n := WordLength(s);
      WordsOfWord(s[..n], s[n..] + [c]);
      assert s[..n] + (s[n..] + [c]) == s + [c];
      WordsTrailingSpace(s[n..], c);
    }
  }

  lemma {:induction false} TrimEndKeepsWords(s: string)
    ensures Words(TrimEnd(s)) == Words(s)
    ensures TrimEnd(s) == [] || !Space(TrimEnd(s)[|TrimEnd(s)| - 1])
    ensures TrimEnd(s) <= s
  {
    if s != [] && Space(s[|s| - 1]) {
      TrimEndKeepsWords(s[..|s| - 1]);
      WordsTrailingSpace(s[..|s| - 1], s[|s| - 1]);
      assert s[..|s| - 1] + [s[|s| - 1]] == s;
    }
  }

  predicate Trimmed(s: string) { s == [] || (!Space(s[0]) && !Space(s[|s| - 1])) }

  /** Trimming keeps the words, and trimming again changes nothing. */
  lemma TrimFacts(s: string)
    ensures Words(Trim(s)) == Words(s) && Trimmed(Trim(s))
    ensures Trimmed(s) ==> Trim(s) == s
  {
    TrimStartKeepsWords(s);
    TrimEndKeepsWords(TrimStart(s));
  }

  lemma {:induction false} JoinedIsTrimmed(parts: seq<string>)
    requires forall k | 0 <= k < |parts| :: parts[k] != [] && Unspaced(parts[k])
    ensures Trimmed(Join(parts, ' '))
    ensures parts != [] ==> Join(parts, ' ') != [] && Join(parts, ' ')[0] == parts[0][0]
  {
    if |parts| > 1 { JoinedIsTrimmed(parts[1..]); }
  }

  // --------------------------------------------------------------------- patterns

  /** Whether one host pattern names the endpoint, in the clear or hashed. */
  function PatternMatches(digest: Digest, pattern: string, endpoint: string): Result<bool> {
    if pattern == endpoint then Success(true)
    else if pattern == [] || pattern[0] != '|' then Success(false)
    else
      var parts := Split(pattern, '|');
      if |parts| < 2 || parts[0] != "" || parts[1] != "1" then Failure(UnsupportedAlgorithm)
      else if |parts| < 3 then Failure(MissingSalt)
      else if |parts| < 4 then Failure(MissingDigest)
      else if |parts| > 4 then Failure(UnexpectedFields)
      else match digest(parts[2], parts[3], endpoint)
        case None => Failure(InvalidDigest)
        case Some(same) => Success(same)
  }

  /** The patterns that do not match, in order; the first malformed pattern is an error. */
  function Retain(digest: Digest, patterns: seq<string>, endpoint: string): (r: Result<seq<string>>)
    ensures r.Success? ==> |r.value| <= |patterns|
  {
    if patterns == [] then Success([])
    else match PatternMatches(digest, patterns[0], endpoint)
      case Failure(e) => Failure(e)
      case Success(same) =>
        (match Retain(digest, patterns[1..], endpoint)
         case Failure(e) => Failure(e)
         case Success(rest) => Success(if same then rest else [patterns[0]] + rest))
  }

  predicate Subsequence(a: seq<string>, b: seq<string>) {
    || a == []
    || (b != [] && (if a[0] == b[0] then Subsequence(a[1..], b[1..]) else Subsequence(a, b[1..])))
  }

  lemma RetainFirst(digest: Digest, p: string, rest: seq<string>, endpoint: string)
    requires Retain(digest, [p] + rest, endpoint).Success?
    ensures Retain(digest, rest, endpoint).Success? && PatternMatches(digest, p, endpoint).Success?
    ensures Retain(digest, [p] + rest, endpoint).value ==
            (if PatternMatches(digest, p, endpoint).value then [] else [p]) + Retain(digest, rest, endpoint).value
  {
    hide PatternMatches;
    assert ([p] + rest)[0] == p && ([p] + rest)[1..] == rest;
  }

  lemma {:induction false} RetainSucceedsIff(digest: Digest, patterns: seq<string>, endpoint: string)
    ensures Retain(digest, patterns, endpoint).Success? <==>
            forall k | 0 <= k < |patterns| :: PatternMatches(digest, patterns[k], endpoint).Success?
  {
    hide PatternMatches;
    if patterns != [] { RetainSucceedsIff(digest, patterns[1..], endpoint); }
  }

  lemma {:induction false} RetainCounts(digest: Digest, patterns: seq<string>, endpoint: string, p: string)
    requires Retain(digest, patterns, endpoint).Success?
    ensures multiset(Retain(digest, patterns, endpoint).value)[p] ==
            if PatternMatches(digest, p, endpoint) == Success(false) then multiset(patterns)[p] else 0
  {
    hide PatternMatches;
    if patterns != [] {
      var rest := patterns[1..];
      assert patterns == [patterns[0]] + rest;
      RetainFirst(digest, patterns[0], rest, endpoint);
      RetainCounts(digest, rest, endpoint, p);
    }
  }

  lemma {:induction false} RetainInOrder(digest: Digest, patterns: seq<string>, endpoint: string)
    requires Retain(digest, patterns, endpoint).Success?
    ensures Subsequence(Retain(digest, patterns, endpoint).value, patterns)
    ensures forall p | p in Retain(digest, patterns, endpoint).value ::
              p in patterns && PatternMatches(digest, p, endpoint) == Success(false)
  {
    hide PatternMatches;
    if patterns != [] {
      var rest := patterns[1..];
      assert patterns == [patterns[0]] + rest;
      RetainFirst(digest, patterns[0], rest, endpoint);
      RetainInOrder(digest, rest, endpoint);
      var kept := Retain(digest, patterns, endpoint).value;
      if PatternMatches(digest, patterns[0], endpoint).value {
        if kept != [] { assert kept[0] in kept && kept[0] != patterns[0]; }
      } else {
        assert kept[1..] == Retain(digest, rest, endpoint).value;
      }
    }
  }

  lemma {:induction false} RetainsUnmatched(digest: Digest, patterns: seq<string>, endpoint: string)
    requires forall p | p in patterns :: PatternMatches(digest, p, endpoint) == Success(false)
    ensures Retain(digest, patterns, endpoint) == Success(patterns)
  {
    hide PatternMatches;
    if patterns != [] {
      assert patterns[0] in patterns;
      RetainsUnmatched(digest, patterns[1..], endpoint);
      assert [patterns[0]] + patterns[1..] == patterns;
    }
  }

  lemma {:induction false} RetainedAllAreAll(digest: Digest, patterns: seq<string>, endpoint: string)
    requires Retain(digest, patterns, endpoint).Success?
    requires |Retain(digest, patterns, endpoint).value| == |patterns|
    ensures Retain(digest, patterns, endpoint).value == patterns
  {
    hide PatternMatches;
    if patterns != [] {
      assert patterns == [patterns[0]] + patterns[1..];
      RetainFirst(digest, patterns[0], patterns[1..], endpoint);
      RetainedAllAreAll(digest, patterns[1..], endpoint);
    }
  }

  /** What is retained is exactly the patterns that do not match, as often as they occur and in order;
      filtering it again retains all of it. */
  lemma RetainExact(digest: Digest, patterns: seq<string>, endpoint: string)
    requires Retain(digest, patterns, endpoint).Success?
    ensures var kept := Retain(digest, patterns, endpoint).value;
            && (forall p :: multiset(kept)[p] == if PatternMatches(digest, p, endpoint) == Success(false) then multiset(patterns)[p] else 0)
            && Subsequence(kept, patterns) && (forall p | p in kept :: p in patterns)
            && Retain(digest, kept, endpoint) == Success(kept)
            && (|kept| == |patterns| ==> kept == patterns)
  {
    hide PatternMatches, Retain;
    var kept := Retain(digest, patterns, endpoint).value;
    forall p ensures multiset(kept)[p] == if PatternMatches(digest, p, endpoint) == Success(false) then multiset(patterns)[p] else 0 {
      RetainCounts(digest, patterns, endpoint, p);
    }
    RetainInOrder(digest, patterns, endpoint);
    RetainsUnmatched(digest, kept, endpoint);
    if |kept| == |patterns| { RetainedAllAreAll(digest, patterns, endpoint); }
  }

  // ------------------------------------------------------------------------- lines

  /** A line as OpenSSH reads it: an optional marker, the host patterns, the key type, the key and
      possibly a comment. */
  datatype Line = Blank | Malformed | Entry(fields: seq<string>, hostIndex: nat)

  function HostIndex(fields: seq<string>): nat {
    if fields != [] && fields[0] != [] && fields[0][0] == '@' then 1 else 0
  }

  function ParseTrimmed(trimmed: string): Line {
    if trimmed == [] || trimmed[0] == '#' then Blank
    else
      var fields := Words(trimmed);
      if |fields| < HostIndex(fields) + 3 then Malformed else Entry(fields, HostIndex(fields))
  }

  function Parse(line: string): Line { ParseTrimmed(Trim(line)) }

  function Patterns(l: Line): seq<string>
    requires l.Entry? && l.hostIndex < |l.fields|
  {
    Split(l.fields[l.hostIndex], ',')
  }

  function FilterLine(digest: Digest, line: string, endpoint: string): Result<Option<string>> {
    match Parse(line)
    case Blank => Success(None)
    case Malformed => Failure(InvalidEntry)
    case Entry(fields, h) =>
      (match Retain(digest, Split(fields[h], ','), endpoint)
       case Failure(e) => Failure(e)
       case Success(kept) =>
         if |kept| == |Split(fields[h], ',')| then Success(Some(Trim(line)))
         else if kept == [] then Success(None)
         else Success(Some(Join(fields[h := Join(kept, ',')], ' '))))
  }

  /** The filter's loop over the patterns of a line. */
  method FilterKnownHostsLine(digest: Digest, line: string, endpoint: string) returns (result: Result<Option<string>>)
    ensures result == FilterLine(digest, line, endpoint)
  {
    hide PatternMatches, Trim, Words, Split, Join;
    var trimmed := Trim(line);
    if trimmed == [] || trimmed[0] == '#' { return Success(None); }
    var fields := Words(trimmed);
    var hostIndex := HostIndex(fields);
    if |fields| < hostIndex + 3 { return Failure(InvalidEntry); }
    var patterns := Split(fields[hostIndex], ',');
    var removed, retained := false, [];
    ghost var all := Retain(digest, patterns, endpoint);
    assert all.Success? ==> [] + all.value == all.value;
    assert patterns[0..] == patterns;
    for k := 0 to |patterns|
      invariant Extended(retained, Retain(digest, patterns[k..], endpoint)) == all
      invariant |retained| <= k && (removed <==> |retained| < k)
    {
      assert patterns[k..][0] == patterns[k] && patterns[k..][1..] == patterns[k + 1..];
      ghost var rest := Retain(digest, patterns[k + 1..], endpoint);
      var same := PatternMatches(digest, patterns[k], endpoint);
      if same.Failure? { return Failure(same.error); }
      if same.value {
        removed := true;
      } else {
        if rest.Success? { ConcatAssociative(retained, [patterns[k]], rest.value); }
        retained := retained + [patterns[k]];
      }
    }
    assert retained + [] == retained;
    if !removed { return Success(Some(trimmed)); }
    if retained == [] { return Success(None); }
    fields := fields[hostIndex := Join(retained, ',')];
    result := Success(Some(Join(fields, ' ')));
  }

  function Extended(kept: seq<string>, rest: Result<seq<string>>): Result<seq<string>> {
    match rest case Failure(e) => Failure(e) case Success(r) => Success(kept + r)
  }

  // -------------------------------------------------------------------- properties

  /** The joined patterns still read as a host field: they are not the one empty pattern, and a line
      without a marker does not turn into a comment or grow a marker. */
  predicate Readable(kept: seq<string>, hostIndex: nat) {
    && kept != [""]
    && (hostIndex == 0 && kept != [] && kept[0] != [] ==> kept[0][0] != '#' && kept[0][0] != '@')
  }

  lemma ParsedFields(line: string)
    requires Parse(line).Entry?
    ensures var (fields, h) := (Parse(line).fields, Parse(line).hostIndex);
            && fields == Words(Trim(line)) && |fields| >= h + 3 && h == HostIndex(fields) <= 1
            && forall k | 0 <= k < |fields| :: fields[k] != [] && Unspaced(fields[k])
  {
    WordsUnspaced(Trim(line));
  }

  lemma {:induction false} FirstOfJoin(kept: seq<string>)
    requires kept != []
    ensures Join(kept, ',') == [] <==> kept == [""]
    ensures kept != [""] ==> Join(kept, ',')[0] == if kept[0] == [] then ',' else kept[0][0]
  {
  }

  /** Writing a line back with fewer patterns gives a line with those patterns and the same other fields,
      exactly when the patterns that are left read as a host field. */
  lemma RewrittenLineIff(fields: seq<string>, h: nat, kept: seq<string>)
    requires |fields| >= h + 3 && h == HostIndex(fields)
    requires forall k | 0 <= k < |fields| :: fields[k] != [] && Unspaced(fields[k])
    requires kept != [] && forall k | 0 <= k < |kept| :: Unspaced(kept[k])
    ensures var rewritten := fields[h := Join(kept, ',')];
            Parse(Join(rewritten, ' ')) == Entry(rewritten, h) <==> Readable(kept, h)
    ensures Readable(kept, h) ==> Trim(Join(fields[h := Join(kept, ',')], ' ')) == Join(fields[h := Join(kept, ',')], ' ')
  {
    hide Words, Join, Trim, NonEmpty, Unspaced;
    var field := Join(kept, ',');
    var rewritten := fields[h := field];
    var text := Join(rewritten, ' ');
    JoinUnspaced(kept);
    FirstOfJoin(kept);
    WordsJoin(rewritten);
    TrimFacts(text);
    if kept != [""] {
      JoinedIsTrimmed(rewritten);
      assert Words(text) == rewritten && text[0] == rewritten[0][0];
      assert h == 1 ==> rewritten[0] == fields[0];
      assert h == 0 ==> rewritten[0] == field;
    } else {
      assert rewritten[h] == [] && |Words(text)| < |rewritten|;
    }
  }

  /** After filtering: no pattern of the line matches the endpoint, every other pattern is still there in
      order, the marker, the key and the comment are unchanged, and filtering again changes nothing. The
      one condition is that what is left of the host field, when patterns were removed, reads as one. */
  lemma FilteredLine(digest: Digest, line: string, endpoint: string, text: string)
    requires FilterLine(digest, line, endpoint) == Success(Some(text))
    ensures var before := Parse(line);
            before.Entry? && before.hostIndex < |before.fields| && Retain(digest, Patterns(before), endpoint).Success?
    ensures var before := Parse(line);
            var kept := Retain(digest, Patterns(before), endpoint).value;
            kept == Patterns(before) || Readable(kept, before.hostIndex) ==>
              && Parse(text) == Entry(before.fields[before.hostIndex := Join(kept, ',')], before.hostIndex)
              && Patterns(Parse(text)) == kept
              && FilterLine(digest, text, endpoint) == Success(Some(text))
  {
    hide Words, Join, Trim, NonEmpty, Unspaced, Split, PatternMatches, Retain, Subsequence;
    ParsedFields(line);
    var before := Parse(line);
    var (fields, h) := (before.fields, before.hostIndex);
    var patterns := Patterns(before);
    var kept := Retain(digest, patterns, endpoint).value;
    RetainExact(digest, patterns, endpoint);
    SplitPieces(fields[h], ',');
    SplitUnspaced(fields[h], ',');
    if |kept| == |patterns| {
      TrimFacts(line);
      TrimFacts(text);
      JoinSplit(fields[h], ',');
      assert fields[h := fields[h]] == fields;
    } else if Readable(kept, h) {
      assert forall k | 0 <= k < |kept| :: kept[k] in kept;
      RewrittenLineIff(fields, h, kept);
      SplitJoin(kept, ',');
    }
  }

  /** A line disappears exactly when it is blank or a comment, or all its patterns name the endpoint. */
  lemma RemovedIff(digest: Digest, line: string, endpoint: string)
    ensures FilterLine(digest, line, endpoint) == Success(None) <==>
            || Parse(line).Blank?
            || (&& Parse(line).Entry? && Parse(line).hostIndex < |Parse(line).fields|
                && forall p | p in Patterns(Parse(line)) :: PatternMatches(digest, p, endpoint) == Success(true))
  {
    hide Words, Trim, Split, PatternMatches, Retain;
    if Parse(line).Entry? {
      ParsedFields(line);
      AllMatchIff(digest, Patterns(Parse(line)), endpoint);
    }
  }

  /** A line is an error exactly when it has too few fields or one of its patterns is malformed. */
  lemma ErrorIff(digest: Digest, line: string, endpoint: string)
    ensures FilterLine(digest, line, endpoint).Failure? <==>
            || Parse(line).Malformed?
            || (&& Parse(line).Entry? && Parse(line).hostIndex < |Parse(line).fields|
                && exists k | 0 <= k < |Patterns(Parse(line))| :: PatternMatches(digest, Patterns(Parse(line))[k], endpoint).Failure?)
  {
    hide Words, Trim, Split, PatternMatches, Retain;
    if Parse(line).Entry? {
      ParsedFields(line);
      RetainSucceedsIff(digest, Patterns(Parse(line)), endpoint);
    }
  }

  lemma {:induction false} AllMatchIff(digest: Digest, patterns: seq<string>, endpoint: string)
    ensures Retain(digest, patterns, endpoint) == Success([]) <==>
            forall p | p in patterns :: PatternMatches(digest, p, endpoint) == Success(true)
  {
    hide PatternMatches;
    if patterns != [] {
      assert patterns[0] in patterns && forall p | p in patterns[1..] :: p in patterns;
      assert forall p | p in patterns :: p == patterns[0] || p in patterns[1..];
      AllMatchIff(digest, patterns[1..], endpoint);
    }
  }

  /** The condition is needed: removing the endpoint `e` from this line leaves a comment, and filtering
      again loses the entry. */
  lemma LeftoverBecomesComment(digest: Digest)
    ensures var line := "e,#a k v";
            FilterLine(digest, line, "e") == Success(Some("#a k v")) && FilterLine(digest, "#a k v", "e") == Success(None)
  {
    hide Trim, Words, Split;
    var fields, rewritten := ["e,#a", "k", "v"], ["#a", "k", "v"];
    LiteralLine("e,#a", "k", "v", "e,#a k v");
    LiteralLine("#a", "k", "v", "#a k v");
    assert Join(["e", "#a"], ',') == "e,#a" by { assert ["e", "#a"][1..] == ["#a"]; }
    SplitJoin(["e", "#a"], ',');
    assert fields[0 := "#a"] == rewritten;
    assert ["e", "#a"][1..] == ["#a"] && ["#a"][1..] == [];
    assert Join(["#a"], ',') == "#a" && ",#a"[1..] == "#a";
    RetainsUnmatched(digest, ["#a"], "e");
  }

  lemma LiteralLine(a: string, b: string, c: string, line: string)
    requires a != [] && b != [] && c != [] && Unspaced(a) && Unspaced(b) && Unspaced(c)
    requires line == a + [' '] + (b + [' '] + c)
    ensures Join([a, b, c], ' ') == line && Trim(line) == line && Words(line) == [a, b, c]
  {
    hide Words, Trim, Unspaced;
    var fields := [a, b, c];
    assert fields[1..] == [b, c] && [b, c][1..] == [c];
    assert Join([c], ' ') == c && Join([b, c], ' ') == b + [' '] + c;
    WordsJoin(fields);
    JoinedIsTrimmed(fields);
    TrimFacts(line);
  }

  // -------------------------------------------------------------------------- files

  /** `saturating_add` on 32 bits. */
  const U32_MAX := 0xFFFF_FFFF

  /** The lines handed to libssh2, up to the first that cannot be filtered or that it rejects. */
  function Loaded(digest: Digest, accepts: string -> bool, lines: seq<string>, endpoint: string): (seq<string>, Option<Error>) {
    if lines == [] then ([], None)
    else match FilterLine(digest, lines[0], endpoint)
      case Failure(e) => ([], Some(e))
      case Success(None) => Loaded(digest, accepts, lines[1..], endpoint)
      case Success(Some(text)) =>
        if !accepts(text) then ([], Some(Rejected))
        else
          var (rest, error) := Loaded(digest, accepts, lines[1..], endpoint);
          ([text] + rest, error)
  }

  method ReadExcludingEndpoint(digest: Digest, accepts: string -> bool, lines: seq<string>, endpoint: string)
    returns (loaded: seq<string>, result: Result<nat>)
    ensures var (all, error) := Loaded(digest, accepts, lines, endpoint);
            && loaded == all
            && result == if error.Some? then Failure(error.value) else Success(if |all| < U32_MAX then |all| else U32_MAX)
  {
    hide FilterLine;
    loaded := [];
    var count := 0;
    ghost var (all, error) := Loaded(digest, accepts, lines, endpoint);
    assert lines[0..] == lines && [] + all == all;
    for k := 0 to |lines|
      invariant var (rest, e) := Loaded(digest, accepts, lines[k..], endpoint); loaded + rest == all && e == error
      invariant count == if |loaded| < U32_MAX then |loaded| else U32_MAX
    {
      assert lines[k..][0] == lines[k] && lines[k..][1..] == lines[k + 1..];
      var filtered := FilterKnownHostsLine(digest, lines[k], endpoint);
      if filtered.Failure? {
        assert loaded + [] == loaded;
        return loaded, Failure(filtered.error);
      }
      if filtered.value.Some? {
        var text := filtered.value.value;
        if !accepts(text) {
          assert loaded + [] == loaded;
          return loaded, Failure(Rejected);
        }
        ConcatAssociative(loaded, [text], Loaded(digest, accepts, lines[k + 1..], endpoint).0);
        loaded := loaded + [text];
        count := if count < U32_MAX then count + 1 else U32_MAX;
      }
    }
    assert loaded + [] == loaded;
    result := Success(count);
  }

  /** A line that filtering leaves readable. */
  ghost predicate KeepsReadable(digest: Digest, line: string, endpoint: string) {
    var l := Parse(line);
    l.Entry? && l.hostIndex < |l.fields| && Retain(digest, Patterns(l), endpoint).Success? ==>
      var kept := Retain(digest, Patterns(l), endpoint).value;
      kept == Patterns(l) || Readable(kept, l.hostIndex)
  }

  /** Filtering a whole file twice is filtering it once, and afterwards no pattern of any loaded line
      matches the endpoint. */
  lemma {:induction false} FilteringTwice(digest: Digest, accepts: string -> bool, lines: seq<string>, endpoint: string)
    requires Loaded(digest, accepts, lines, endpoint).1.None?
    requires forall k | 0 <= k < |lines| :: KeepsReadable(digest, lines[k], endpoint)
    ensures var once := Loaded(digest, accepts, lines, endpoint).0;
            && Loaded(digest, accepts, once, endpoint) == (once, None)
            && forall k | 0 <= k < |once| ::
                 && Parse(once[k]).Entry? && Parse(once[k]).hostIndex < |Parse(once[k]).fields|
                 && forall p | p in Patterns(Parse(once[k])) :: PatternMatches(digest, p, endpoint) == Success(false)
  {
    hide FilterLine, Parse, PatternMatches, Retain, Readable, Patterns;
    if lines != [] {
      FilteringTwice(digest, accepts, lines[1..], endpoint);
      var first := FilterLine(digest, lines[0], endpoint);
      if first.value.Some? {
        var text := first.value.value;
        assert KeepsReadable(digest, lines[0], endpoint);
        FilteredLine(digest, lines[0], endpoint, text);
        RetainExact(digest, Patterns(Parse(lines[0])), endpoint);
        var rest := Loaded(digest, accepts, lines[1..], endpoint).0;
        assert ([text] + rest)[1..] == rest;
      }
    }
  }

  // ---------------------------------------------------------- patterns and lines, told directly

  /** A pattern in the clear matches exactly the endpoint it spells. */
  lemma PlainPattern(digest: Digest, pattern: string, endpoint: string)
    requires pattern == endpoint || pattern == [] || pattern[0] != '|'
    ensures PatternMatches(digest, pattern, endpoint) == Success(pattern == endpoint)
  {
  }

  /** A pattern that starts with a bar is read as bar-separated parts; each way of being malformed has its
      error, and a well-formed one matches as the digest of its salt says. */
  lemma HashedPattern(digest: Digest, parts: seq<string>, endpoint: string)
    requires |parts| >= 2 && parts[0] == "" && (forall k | 0 <= k < |parts| :: '|' !in parts[k]) && Join(parts, '|') != endpoint
    ensures var r := PatternMatches(digest, Join(parts, '|'), endpoint);
            && (parts[1] != "1" ==> r == Failure(UnsupportedAlgorithm))
            && (parts[1] == "1" && |parts| == 2 ==> r == Failure(MissingSalt))
            && (parts[1] == "1" && |parts| == 3 ==> r == Failure(MissingDigest))
            && (parts[1] == "1" && |parts| > 4 ==> r == Failure(UnexpectedFields))
            && (parts[1] == "1" && |parts| == 4 ==>
                  && (digest(parts[2], parts[3], endpoint).None? ==> r == Failure(InvalidDigest))
                  && (digest(parts[2], parts[3], endpoint).Some? ==> r == Success(digest(parts[2], parts[3], endpoint).value)))
  {
    hide Split;
    SplitJoin(parts, '|');
    assert Join(parts, '|')[0] == '|';
  }

  /** In particular a pattern `|1|salt|expected`. */
  lemma HashedWithSalt(digest: Digest, salt: string, expected: string, endpoint: string)
    requires '|' !in salt && '|' !in expected && "|1|" + salt + "|" + expected != endpoint
    ensures PatternMatches(digest, "|1|" + salt + "|" + expected, endpoint) ==
            match digest(salt, expected, endpoint) case None => Failure(InvalidDigest) case Some(same) => Success(same)
  {
    var parts := ["", "1", salt, expected];
    assert parts[1..] == ["1", salt, expected] && parts[1..][1..] == [salt, expected] && [salt, expected][1..] == [expected];
    assert Join([salt, expected], '|') == salt + ['|'] + Join([expected], '|');
    assert Join(parts[1..], '|') == "1" + ['|'] + Join([salt, expected], '|');
    assert Join(parts, '|') == "|1|" + salt + "|" + expected;
    HashedPattern(digest, parts, endpoint);
  }

  /** A line none of whose patterns match is handed on as it is, but for the space around it. */
  lemma UntouchedLine(digest: Digest, line: string, endpoint: string)
    requires Parse(line).Entry? && Parse(line).hostIndex < |Parse(line).fields|
    requires forall p | p in Patterns(Parse(line)) :: PatternMatches(digest, p, endpoint) == Success(false)
    ensures FilterLine(digest, line, endpoint) == Success(Some(Trim(line)))
  {
    hide Trim, Words, Split, PatternMatches, Retain;
    RetainsUnmatched(digest, Patterns(Parse(line)), endpoint);
  }

  /** What one line contributes to the loaded lines. */
  lemma LoadedOne(digest: Digest, accepts: string -> bool, line: string, endpoint: string)
    ensures var (r, (loaded, error)) := (FilterLine(digest, line, endpoint), Loaded(digest, accepts, [line], endpoint));
            && (r.Failure? ==> loaded == [] && error == Some(r.error))
            && (r == Success(None) ==> loaded == [] && error == None)
            && (r.Success? && r.value.Some? && accepts(r.value.value) ==> loaded == [r.value.value] && error == None)
            && (r.Success? && r.value.Some? && !accepts(r.value.value) ==> loaded == [] && error == Some(Rejected))
  {
    hide FilterLine;
    assert [line][1..] == [];
  }

  /** Lines are loaded in order, up to the first error. */
  lemma {:induction false} LoadedConcat(digest: Digest, accepts: string -> bool, a: seq<string>, b: seq<string>, endpoint: string)
    ensures var ((x, e), (y, f)) := (Loaded(digest, accepts, a, endpoint), Loaded(digest, accepts, b, endpoint));
            Loaded(digest, accepts, a + b, endpoint) == if e.Some? then (x, e) else (x + y, f)
  {
    hide FilterLine;
    if a == [] {
      assert a + b == b && [] + Loaded(digest, accepts, b, endpoint).0 == Loaded(digest, accepts, b, endpoint).0;
    } else {
      LoadedConcat(digest, accepts, a[1..], b, endpoint);
      assert (a + b)[1..] == a[1..] + b;
      var first := FilterLine(digest, a[0], endpoint);
      if first.Success? && first.value.Some? {
        ConcatAssociative([first.value.value], Loaded(digest, accepts, a[1..], endpoint).0, Loaded(digest, accepts, b, endpoint).0);
      }
    }
  }
}
