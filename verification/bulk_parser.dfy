/** The free-text parser of `addInterns`: a block of text becomes a list of
    `{ name, email }` candidates, one segment at a time. */
module BulkParser {
  import opened Http
  import opened Text

  datatype Candidate = Candidate(name: string, email: string)

  /** The characters of `/[\n,]+/`. */
  predicate IsBulkSeparator(c: char) {
    c == '\n' || c == ','
  }

  /** `input.split(/[\n,]+/).map(s => s.trim()).filter(s => s.length > 0)`.
      Splitting at every separator rather than at runs of them only adds
      empty pieces, and the filter drops those. */
  function Segments(input: string): seq<string> {
    NonEmptyOnly(TrimEach(Split(input, IsBulkSeparator)))
  }

  /** Every segment is non-empty, already trimmed, and holds neither a comma
      nor a newline. */
  lemma SegmentShape(input: string)
    ensures forall k :: 0 <= k < |Segments(input)| ==>
      var seg := Segments(input)[k];
      seg != "" && Trim(seg) == seg && forall i :: 0 <= i < |seg| ==> !IsBulkSeparator(seg[i])
  {
    var parts := Split(input, IsBulkSeparator);
    SplitPiecesHaveNoSeparator(input, IsBulkSeparator);
    var trimmed := TrimEach(parts);
    forall k | 0 <= k < |Segments(input)|
      ensures var seg := Segments(input)[k];
        seg != "" && Trim(seg) == seg && forall i :: 0 <= i < |seg| ==> !IsBulkSeparator(seg[i])
    {
      var seg := Segments(input)[k];
      assert seg in trimmed;
      var j :| 0 <= j < |trimmed| && trimmed[j] == seg;
      TrimFacts(parts[j]);
      TrimIdempotent(parts[j]);
      forall i | 0 <= i < |seg| ensures !IsBulkSeparator(seg[i]) {
        assert seg[i] == parts[j][TrimStartLen(parts[j]) + i];
      }
    }
  }

  predicate NoLineTerminator(s: string) {
    forall i :: 0 <= i < |s| ==> !IsLineTerminator(s[i])
  }

  /** A way for `^(.+)<(.+)>$` to match `s` with the `<` at index `p`: both
      groups are non-empty runs of characters `.` accepts (anything but a
      line terminator) and `s` ends with `>`. */
  ghost predicate RegexCut(s: string, p: int) {
    && 1 <= p && p + 2 < |s| && s[p] == '<' && s[|s| - 1] == '>'
    && NoLineTerminator(s[..p]) && NoLineTerminator(s[p + 1..|s| - 1])
  }

  /** The greatest `p` below `n`, and at least 1, with `s[p] == '<'`. */
  function LastLtBefore(s: string, n: nat): (r: Option<nat>)
    requires n <= |s|
    ensures r.Some? ==> 1 <= r.value < n && s[r.value] == '<'
    ensures r.Some? ==> forall q :: r.value < q < n ==> s[q] != '<'
    ensures r.None? ==> forall q :: 1 <= q < n ==> s[q] != '<'
  {
    if n <= 1 then None
    else if s[n - 1] == '<' then Some(n - 1)
    else LastLtBefore(s, n - 1)
  }

  /** `LastLtBefore` finds a `<` with none after it below `n`. */
  lemma {:induction false} LastLtBeforeAt(s: string, n: nat, p: nat)
    requires 1 <= p < n <= |s| && s[p] == '<'
    requires forall q :: p < q < n ==> s[q] != '<'
    ensures LastLtBefore(s, n) == Some(p)
    decreases n
  {
    if p < n - 1 {
      LastLtBeforeAt(s, n - 1, p);
    }
  }

  /** Where the bracket rule cuts a segment: the last `<` that still leaves
      a non-empty name before it and a non-empty email before the closing
      `>`. */
  function BracketSplit(s: string): Option<nat> {
    if |s| >= 4 && s[|s| - 1] == '>' && NoLineTerminator(s) then LastLtBefore(s, |s| - 2)
    else None
  }

  lemma CutFacts(s: string, p: int)
    requires RegexCut(s, p)
    ensures NoLineTerminator(s) && |s| >= 4
  {
    forall i | 0 <= i < |s| ensures !IsLineTerminator(s[i]) {
      if i < p {
        assert s[i] == s[..p][i];
      } else if p < i < |s| - 1 {
        assert s[i] == s[p + 1..|s| - 1][i - p - 1];
      }
    }
  }

  /** `BracketSplit` is the match the greedy regular expression picks: every
      way the expression can match puts the `<` at or before the chosen one,
      and the chosen one is a match. */
  lemma BracketSplitGreedy(s: string)
    ensures forall q :: RegexCut(s, q) ==> BracketSplit(s).Some? && q <= BracketSplit(s).value
    ensures BracketSplit(s).Some? ==> RegexCut(s, BracketSplit(s).value)
  {
    forall q | RegexCut(s, q)
      ensures BracketSplit(s).Some? && q <= BracketSplit(s).value
    {
      CutFacts(s, q);
    }
    if BracketSplit(s).Some? {
      var p := BracketSplit(s).value;
      assert NoLineTerminator(s[..p]) by {
        forall i | 0 <= i < p ensures !IsLineTerminator(s[..p][i]) {
          assert s[..p][i] == s[i];
        }
      }
      var mid := s[p + 1..|s| - 1];
      assert NoLineTerminator(mid) by {
        forall i | 0 <= i < |mid| ensures !IsLineTerminator(mid[i]) {
          assert mid[i] == s[p + 1 + i];
        }
      }
    }
  }

  /** `line.split(/\s+/)` for a line without leading or trailing white
      space: its maximal runs of non-space characters. */
  function Words(line: string): seq<string> {
    NonEmptyOnly(Split(line, IsSpace))
  }

  /** What one segment contributes: the bracket rule first, then the rule for
      two or more words, then the rule for a single token. */
  function ParseSegment(line: string): Option<Candidate> {
    match BracketSplit(line)
    case Some(p) =>
      Some(Candidate(Trim(line[..p]), Trim(line[p + 1..|line| - 1])))
    case None =>
      var parts := Words(line);
      if |parts| >= 2 then
        var email := parts[|parts| - 1];
        if '@' in email then Some(Candidate(Join(parts[..|parts| - 1], " "), email)) else None
      else
        match FirstIndex(line, '@')
        case Some(at) => Some(Candidate(line[..at], line))
        case None => None
  }

  /** The candidates of a list of segments, in order. */
  function ParseLines(lines: seq<string>): (r: seq<Candidate>)
    ensures |r| <= |lines|
  {
    if lines == [] then []
    else
      var last := lines[|lines| - 1];
      ParseLines(lines[..|lines| - 1])
        + (match ParseSegment(last) case Some(c) => [c] case None => [])
  }

  /** The parse loop: one pass over the segments, pushing what each yields. */
  method ParseBulk(input: string) returns (cands: seq<Candidate>)
    ensures cands == ParseLines(Segments(input))
  {
    var lines := Segments(input);
    cands := [];
    for i := 0 to |lines|
      invariant cands == ParseLines(lines[..i])
    {
      assert lines[..i + 1][..i] == lines[..i];
      var line := lines[i];
      var c := ParseSegment(line);
      if c.Some? {
        cands := cands + [c.value];
      }
    }
    assert lines[..|lines|] == lines;
  }

  /** Every candidate comes from one segment, in segment order. */
  lemma {:induction false} ParseLinesSource(lines: seq<string>)
    ensures forall c :: c in ParseLines(lines) ==>
      exists k :: 0 <= k < |lines| && ParseSegment(lines[k]) == Some(c)
  {
    if lines != [] {
      var init := lines[..|lines| - 1];
      ParseLinesSource(init);
      forall c | c in ParseLines(lines)
        ensures exists k :: 0 <= k < |lines| && ParseSegment(lines[k]) == Some(c)
      {
        if c in ParseLines(init) {
          var k :| 0 <= k < |init| && ParseSegment(init[k]) == Some(c);
          assert lines[k] == init[k];
        } else {
          assert ParseSegment(lines[|lines| - 1]) == Some(c);
        }
      }
    }
  }

  /** Every segment that parses contributes its candidate. */
  lemma {:induction false} ParseLinesComplete(lines: seq<string>)
    ensures forall k :: 0 <= k < |lines| && ParseSegment(lines[k]).Some? ==>
      ParseSegment(lines[k]).value in ParseLines(lines)
  {
    if lines != [] {
      var init := lines[..|lines| - 1];
      ParseLinesComplete(init);
      forall k | 0 <= k < |lines| && ParseSegment(lines[k]).Some?
        ensures ParseSegment(lines[k]).value in ParseLines(lines)
      {
        if k < |init| {
          assert lines[k] == init[k];
        }
      }
    }
  }

  /** A segment the bracket rule does not match and whose last word lacks an
      `@` is dropped; one whose last word has it yields that word as email
      and the other words, joined by single spaces, as name. */
  lemma WordRule(line: string)
    requires BracketSplit(line).None? && |Words(line)| >= 2
    ensures var w := Words(line);
      && (ParseSegment(line).None? <==> '@' !in w[|w| - 1])
      && (ParseSegment(line).Some? ==>
            && ParseSegment(line).value.email == w[|w| - 1] && NoSpace(ParseSegment(line).value.email)
            && ParseSegment(line).value.name == Join(w[..|w| - 1], " "))
  {
    var w := Words(line);
    SplitPiecesHaveNoSeparator(line, IsSpace);
    assert w[|w| - 1] in Split(line, IsSpace);
  }

  /** A single token yields the text before its first `@` as name and the
      whole token as email; a single token without `@` is dropped. */
  lemma SingleTokenRule(line: string)
    requires BracketSplit(line).None? && |Words(line)| < 2
    ensures ParseSegment(line).Some? <==> '@' in line
    ensures ParseSegment(line).Some? ==>
      var c := ParseSegment(line).value;
      c.email == line && '@' !in c.name && line == c.name + line[|c.name|..] && line[|c.name|] == '@'
  {
  }

  /** The bracket rule takes the trimmed text before the last `<` as name and
      the trimmed text inside the brackets as email; the email is not checked
      for an `@` here. */
  lemma BracketRule(line: string, p: nat)
    requires RegexCut(line, p)
    requires forall q :: RegexCut(line, q) ==> q <= p
    ensures ParseSegment(line) == Some(Candidate(Trim(line[..p]), Trim(line[p + 1..|line| - 1])))
  {
    BracketSplitGreedy(line);
    assert RegexCut(line, BracketSplit(line).value);
  }

  lemma JaneBracketCut()
    ensures BracketSplit("Jane Smith <jane@x.com>") == Some(11)
  {
    var s := "Jane Smith <jane@x.com>";
    assert NoLineTerminator(s);
    LastLtBeforeAt(s, |s| - 2, 11);
  }

  lemma TrimJaneSmith()
    ensures Trim("Jane Smith ") == "Jane Smith"
  {
    assert TrimStart("Jane Smith ") == "Jane Smith ";
    assert TrimEnd("Jane Smith ") == TrimEnd("Jane Smith");
  }

  lemma ExampleBracket()
    ensures ParseSegment("Jane Smith <jane@x.com>") == Some(Candidate("Jane Smith", "jane@x.com"))
  {
    JaneBracketCut();
    var s := "Jane Smith <jane@x.com>";
    assert s[..11] == "Jane Smith " && s[12..|s| - 1] == "jane@x.com";
    TrimNoSpace("jane@x.com");
    TrimJaneSmith();
  }

  lemma BobBracketCut()
    ensures BracketSplit("Bob <nobody>") == Some(4)
  {
    var s := "Bob <nobody>";
    assert NoLineTerminator(s);
    LastLtBeforeAt(s, |s| - 2, 4);
  }

  lemma ExampleNoAtInBrackets()
    ensures ParseSegment("Bob <nobody>") == Some(Candidate("Bob", "nobody"))
  {
    BobBracketCut();
    var s := "Bob <nobody>";
    assert s[..4] == "Bob " && s[5..|s| - 1] == "nobody";
    TrimNoSpace("nobody");
    assert Trim("Bob ") == "Bob" by {
      assert TrimStart("Bob ") == "Bob ";
      assert TrimEnd("Bob ") == TrimEnd("Bob");
    }
  }

  /** The "Name, email" line the bulk input's comments describe. */
  const JohnDoeLine: string := "John Doe, john@x.com"

  lemma JohnDoeSegments()
    ensures Segments(JohnDoeLine) == ["John Doe", "john@x.com"]
  {
    calc {
      Segments(JohnDoeLine);
      NonEmptyOnly(TrimEach(Split(JohnDoeLine, IsBulkSeparator)));
      { JohnDoeSplit(); }
      NonEmptyOnly(TrimEach(["John Doe", " john@x.com"]));
      { TrimJohnDoe();
        TrimLeadingBlank();
        assert TrimEach(["John Doe", " john@x.com"]) == ["John Doe", "john@x.com"]; }
      NonEmptyOnly(["John Doe", "john@x.com"]);
      { NonEmptyOnlyKeepsAll(["John Doe", "john@x.com"]); }
      ["John Doe", "john@x.com"];
    }
  }

  lemma JohnDoeSplit()
    ensures Split(JohnDoeLine, IsBulkSeparator) == ["John Doe", " john@x.com"]
  {
    var name, email := "John Doe", " john@x.com";
    assert JohnDoeLine == name + [','] + email;
    SplitPair(name, ',', email, IsBulkSeparator);
  }

  lemma TrimJohnDoe()
    ensures Trim("John Doe") == "John Doe"
  {
    var s := "John Doe";
    assert TrimStart(s) == s;
    assert TrimEnd(s) == s;
  }

  lemma TrimLeadingBlank()
    ensures Trim(" john@x.com") == "john@x.com"
  {
    assert " john@x.com" == [' '] + "john@x.com";
    TrimOneLeadingSpace("john@x.com");
  }

  /** One blank before a token without white space is trimmed away. */
  lemma TrimOneLeadingSpace(s: string)
    requires NoSpace(s)
    ensures Trim([' '] + s) == s
  {
    assert TrimStart([' '] + s) == TrimStart(s);
    TrimNoSpace(s);
  }

  lemma JohnDoeDropped()
    ensures ParseSegment("John Doe") == None
  {
    JohnDoeWords();
    TwoWordSegment("John", "Doe");
  }

  lemma JohnDoeWords()
    ensures "John Doe" == "John" + " " + "Doe"
    ensures NoSpace("John") && NoSpace("Doe") && '@' !in "Doe"
  {
  }

  /** Two words without brackets: an entry exactly when the second has an `@`. */
  lemma TwoWordSegment(a: string, b: string)
    requires a != "" && b != "" && NoSpace(a) && NoSpace(b) && b[|b| - 1] != '>'
    ensures ParseSegment(a + " " + b) == if '@' in b then Some(Candidate(a, b)) else None
  {
    var line := a + " " + b;
    assert line == a + [' '] + b;
    SplitPair(a, ' ', b, IsSpace);
    NonEmptyOnlyKeepsAll([a, b]);
    assert Words(line) == [a, b];
    assert Join([a], " ") == a;
  }

  lemma JohnEmailSegment()
    ensures ParseSegment("john@x.com") == Some(Candidate("john", "john@x.com"))
  {
    var local, rest := "john", "x.com";
    assert "john@x.com" == local + ['@'] + rest;
    SingleEmailSegment(local, rest);
  }

  /** A lone token `local@rest` is named by its local part. */
  lemma SingleEmailSegment(local: string, rest: string)
    requires NoSpace(local) && NoSpace(rest) && '@' !in local && '>' !in rest
    ensures ParseSegment(local + ['@'] + rest) == Some(Candidate(local, local + ['@'] + rest))
  {
    var line := local + ['@'] + rest;
    assert NoSpace(line) by {
      forall i | 0 <= i < |line|
        ensures !IsSpace(line[i])
      {
        if i < |local| {
          assert line[i] == local[i];
        } else if i > |local| {
          assert line[i] == rest[i - |local| - 1];
        }
      }
    }
    assert line[|line| - 1] != '>' by {
      if rest != [] {
        assert line[|line| - 1] == rest[|rest| - 1];
      }
    }
    assert Words(line) == [line] by {
      SplitNoSeparator(line, IsSpace);
      NonEmptyOnlyKeepsAll([line]);
    }
    assert FirstIndex(line, '@') == Some(|local|) by {
      assert line[..|local|] == local;
      FirstIndexAt(line, '@', |local|);
    }
    assert line[..|local|] == local;
  }

  /** The input is cut at commas before any per-line rule runs, so a
      "Name, email" line loses the name: the name alone is dropped and the
      email alone is named after its local part. */
  lemma ExampleCommaSplitsName()
    ensures ParseLines(Segments(JohnDoeLine)) == [Candidate("john", "john@x.com")]
  {
    JohnDoeSegments();
    JohnDoeDropped();
    JohnEmailSegment();
    ParseTwoLines("John Doe", "john@x.com");
  }

  /** Parsing two segments is parsing each in turn. */
  lemma ParseTwoLines(a: string, b: string)
    ensures ParseLines([a, b])
      == (match ParseSegment(a) case Some(c) => [c] case None => [])
       + (match ParseSegment(b) case Some(c) => [c] case None => [])
  {
    assert [a, b][..1] == [a];
    assert [a][..0] == [];
  }
}
