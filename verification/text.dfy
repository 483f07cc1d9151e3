/** The parts of the JavaScript string library that the server and the client
    rely on: the `\s` character class, `trim`, ASCII `toLowerCase`, `includes`,
    `split` on a character class, `join`, and a global replace of a literal
    pattern. */
module Text {
  import opened Http

  /** ECMAScript LineTerminator: the characters `.` in a regular expression
      does not match. */
  predicate IsLineTerminator(c: char) {
    c == '\n' || c == '\r' || c == '\U{2028}' || c == '\U{2029}'
  }

  /** ECMAScript `\s` (WhiteSpace and LineTerminator), which is also the set
      `String.prototype.trim` removes. */
  predicate IsSpace(c: char) {
    || IsLineTerminator(c)
    || c == '\t' || c == '\U{000B}' || c == '\U{000C}' || c == ' '
    || c == '\U{00A0}' || c == '\U{1680}' || ('\U{2000}' <= c <= '\U{200A}')
    || c == '\U{202F}' || c == '\U{205F}' || c == '\U{3000}' || c == '\U{FEFF}'
  }

  predicate NoSpace(s: string) {
    forall i :: 0 <= i < |s| ==> !IsSpace(s[i])
  }

  /** `String.prototype.trimStart`. */
  function TrimStart(s: string): (r: string)
    ensures |r| <= |s|
  {
    if s != [] && IsSpace(s[0]) then TrimStart(s[1..]) else s
  }

  /** `String.prototype.trimEnd`. */
  function TrimEnd(s: string): (r: string)
    ensures |r| <= |s|
  {
    if s != [] && IsSpace(s[|s| - 1]) then TrimEnd(s[..|s| - 1]) else s
  }

  /** `String.prototype.trim`. */
  function Trim(s: string): (r: string)
    ensures |r| <= |TrimStart(s)| <= |s|
  {
    TrimEnd(TrimStart(s))
  }

  /** `trimStart` leaves a suffix of `s` and removes only white space, all of
      the leading white space. */
  lemma {:induction false} TrimStartFacts(s: string)
    ensures TrimStart(s) == s[|s| - |TrimStart(s)|..]
    ensures forall i :: 0 <= i < |s| - |TrimStart(s)| ==> IsSpace(s[i])
    ensures TrimStart(s) == [] || !IsSpace(TrimStart(s)[0])
    decreases |s|
  {
    if s != [] && IsSpace(s[0]) {
      TrimStartFacts(s[1..]);
    }
  }

  /** `trimEnd` leaves a prefix of `s` and removes only white space, all of
      the trailing white space. */
  lemma {:induction false} TrimEndFacts(s: string)
    ensures TrimEnd(s) == s[..|TrimEnd(s)|]
    ensures forall i :: |TrimEnd(s)| <= i < |s| ==> IsSpace(s[i])
    ensures TrimEnd(s) == [] || !IsSpace(TrimEnd(s)[|TrimEnd(s)| - 1])
    decreases |s|
  {
    if s != [] && IsSpace(s[|s| - 1]) {
      TrimEndFacts(s[..|s| - 1]);
    }
  }

  /** `trim` keeps the contiguous middle of `s` that starts at `Start(s)`,
      removes only white space on either side, and leaves no white space at
      either end. */
  lemma TrimFacts(s: string)
    ensures TrimStartLen(s) + |Trim(s)| <= |s|
    ensures Trim(s) == s[TrimStartLen(s)..TrimStartLen(s) + |Trim(s)|]
    ensures forall i :: 0 <= i < TrimStartLen(s) ==> IsSpace(s[i])
    ensures forall i :: TrimStartLen(s) + |Trim(s)| <= i < |s| ==> IsSpace(s[i])
    ensures Trim(s) == [] || (!IsSpace(Trim(s)[0]) && !IsSpace(Trim(s)[|Trim(s)| - 1]))
  {
    var t := TrimStart(s);
    TrimStartFacts(s);
    TrimEndFacts(t);
    var r := TrimEnd(t);
    assert t[..|r|] == s[TrimStartLen(s)..TrimStartLen(s) + |r|];
    forall i | TrimStartLen(s) + |r| <= i < |s| ensures IsSpace(s[i]) {
      assert s[i] == t[i - TrimStartLen(s)];
    }
    if r != [] {
      assert r[0] == t[0];
    }
  }

  /** How many characters `trim` removes at the start. */
  function TrimStartLen(s: string): nat {
    |s| - |TrimStart(s)|
  }

  /** A string without white space comes back from `trim` unchanged. */
  lemma TrimNoSpace(s: string)
    requires NoSpace(s)
    ensures Trim(s) == s
  {
    assert TrimStart(s) == s;
    assert TrimEnd(s) == s;
  }

  /** `trim` gives the empty string exactly when every character is white space. */
  lemma TrimEmptyIff(s: string)
    ensures Trim(s) == [] <==> forall i :: 0 <= i < |s| ==> IsSpace(s[i])
  {
    TrimFacts(s);
    if Trim(s) != [] {
      assert !IsSpace(s[TrimStartLen(s)]);
    }
  }

  /** `trim` is idempotent. */
  lemma TrimIdempotent(s: string)
    ensures Trim(Trim(s)) == Trim(s)
  {
    var r := Trim(s);
    TrimFacts(s);
    assert TrimStart(r) == r;
    assert TrimEnd(r) == r;
  }

  /** ASCII case folding; other characters are left alone. */
  function LowerChar(c: char): char {
    if 'A' <= c <= 'Z' then (c as int + 32) as char else c
  }

  /** `String.prototype.toLowerCase` restricted to ASCII letters. */
  function Lower(s: string): (r: string)
    ensures |r| == |s|
  {
    seq(|s|, i requires 0 <= i < |s| => LowerChar(s[i]))
  }

  /** Case folding never turns white space into something else or back. */
  lemma LowerKeepsSpace(s: string)
    ensures forall i :: 0 <= i < |s| ==> (IsSpace(Lower(s)[i]) <==> IsSpace(s[i]))
  {
  }

  /** Case folding is idempotent. */
  lemma LowerIdempotent(s: string)
    ensures Lower(Lower(s)) == Lower(s)
  {
  }

  /** `t` occurs in `s` starting at index `i`. */
  ghost predicate OccursAt(s: string, t: string, i: int) {
    0 <= i <= |s| - |t| && s[i..i + |t|] == t
  }

  /** `String.prototype.includes`. */
  function Includes(s: string, t: string): bool
    decreases |s|
  {
    if |s| < |t| then false else s[..|t|] == t || Includes(s[1..], t)
  }

  /** `includes` finds `t` exactly when `t` occurs somewhere in `s`. */
  lemma {:induction false} IncludesIff(s: string, t: string)
    ensures Includes(s, t) <==> exists i :: OccursAt(s, t, i)
    decreases |s|
  {
    if |s| < |t| {
    } else if s[..|t|] == t {
      assert OccursAt(s, t, 0);
    } else {
      IncludesIff(s[1..], t);
      if Includes(s[1..], t) {
        var i :| OccursAt(s[1..], t, i);
        assert s[1..][i..i + |t|] == s[i + 1..i + 1 + |t|];
        assert OccursAt(s, t, i + 1);
      }
      if exists i :: OccursAt(s, t, i) {
        var i :| OccursAt(s, t, i);
        assert i != 0;
        assert s[1..][i - 1..i - 1 + |t|] == s[i..i + |t|];
        assert OccursAt(s[1..], t, i - 1);
      }
    }
  }

  /** The empty string occurs in every string. */
  lemma IncludesEmpty(s: string)
    ensures Includes(s, "")
  {
  }

  /** Whatever contains `t` contains every prefix of `t`. */
  lemma {:induction false} IncludesPrefix(s: string, t: string, k: nat)
    requires k <= |t|
    requires Includes(s, t)
    ensures Includes(s, t[..k])
    decreases |s|
  {
    if s[..|t|] == t {
      assert s[..k] == t[..k];
    } else {
      IncludesPrefix(s[1..], t, k);
    }
  }

  /** The index of the first `c` in `s`, if any. */
  function FirstIndex(s: string, c: char): (r: Option<nat>)
    ensures r.Some? ==> r.value < |s| && s[r.value] == c && c !in s[..r.value]
    ensures r.None? ==> c !in s
  {
    if s == [] then None
    else if s[0] == c then Some(0)
    else
      var r := FirstIndex(s[1..], c);
      if r.Some? then
        assert s[..r.value + 1] == [s[0]] + s[1..][..r.value];
        Some(r.value + 1)
      else None
  }

  /** `FirstIndex` finds the occurrence that has no earlier one. */
  lemma FirstIndexAt(s: string, c: char, k: nat)
    requires k < |s| && s[k] == c && c !in s[..k]
    ensures FirstIndex(s, c) == Some(k)
  {
    assert forall j :: 0 <= j < k ==> s[j] != c by {
      forall j | 0 <= j < k ensures s[j] != c {
        assert s[..k][j] == s[j];
      }
    }
    assert c in s by { assert s[k] == c; }
    var r := FirstIndex(s, c).value;
    assert forall j :: 0 <= j < r ==> s[j] != c by {
      forall j | 0 <= j < r ensures s[j] != c {
        assert s[..r][j] == s[j];
      }
    }
    assert r == k;
  }

  /** Each piece trimmed (`map(s => s.trim())`). */
  function TrimEach(xs: seq<string>): (r: seq<string>)
    ensures |r| == |xs|
    ensures forall k :: 0 <= k < |xs| ==> r[k] == Trim(xs[k])
  {
    seq(|xs|, k requires 0 <= k < |xs| => Trim(xs[k]))
  }

  /** The non-empty pieces, in order (`filter(s => s.length > 0)`). */
  function NonEmptyOnly(xs: seq<string>): (r: seq<string>)
    ensures |r| <= |xs|
    ensures forall k :: 0 <= k < |r| ==> r[k] != ""
    ensures forall x :: x in r <==> x in xs && x != ""
  {
    if xs == [] then []
    else if xs[0] == "" then NonEmptyOnly(xs[1..])
    else [xs[0]] + NonEmptyOnly(xs[1..])
  }

  /** Filtering a list without empty pieces changes nothing. */
  lemma {:induction false} NonEmptyOnlyKeepsAll(xs: seq<string>)
    requires forall k :: 0 <= k < |xs| ==> xs[k] != ""
    ensures NonEmptyOnly(xs) == xs
  {
    if xs != [] {
      NonEmptyOnlyKeepsAll(xs[1..]);
      assert [xs[0]] + xs[1..] == xs;
    }
  }

  /** `s.split(sep)` where `sep` matches one character: the pieces between
      separators, in order, one more piece than there are separators. */
  function Split(s: string, isSep: char -> bool): (parts: seq<string>)
    ensures |parts| >= 1
    decreases |s|
  {
    if s == [] then [""]
    else
      var rest := Split(s[1..], isSep);
      if isSep(s[0]) then [""] + rest
      else [[s[0]] + rest[0]] + rest[1..]
  }

  /** No piece holds a separator. */
  lemma {:induction false} SplitPiecesHaveNoSeparator(s: string, isSep: char -> bool)
    ensures forall k, i :: 0 <= k < |Split(s, isSep)| && 0 <= i < |Split(s, isSep)[k]| ==>
      !isSep(Split(s, isSep)[k][i])
    decreases |s|
  {
    if s != [] {
      SplitPiecesHaveNoSeparator(s[1..], isSep);
    }
  }

  /** A string without separators is one piece. */
  lemma {:induction false} SplitNoSeparator(s: string, isSep: char -> bool)
    requires forall i :: 0 <= i < |s| ==> !isSep(s[i])
    ensures Split(s, isSep) == [s]
    decreases |s|
  {
    if s != [] {
      SplitNoSeparator(s[1..], isSep);
      assert [s[0]] + s[1..] == s;
    }
  }

  /** The first piece ends at the first separator. */
  lemma {:induction false} SplitAtFirst(s: string, k: nat, isSep: char -> bool)
    requires k < |s| && isSep(s[k])
    requires forall i :: 0 <= i < k ==> !isSep(s[i])
    ensures Split(s, isSep) == [s[..k]] + Split(s[k + 1..], isSep)
    decreases k
  {
    if k > 0 {
      SplitAtFirst(s[1..], k - 1, isSep);
      assert s[1..][k..] == s[k + 1..];
      assert [s[0]] + s[1..][..k - 1] == s[..k];
    }
  }

  /** A string with exactly one separator splits into the text before it
      and the text after it. */
  /** Two separator-free pieces joined by one separator split back apart. */
  lemma SplitPair(a: string, c: char, b: string, isSep: char -> bool)
    requires isSep(c)
    requires forall i :: 0 <= i < |a| ==> !isSep(a[i])
    requires forall i :: 0 <= i < |b| ==> !isSep(b[i])
    ensures Split(a + [c] + b, isSep) == [a, b]
  {
    var s := a + [c] + b;
    forall i | 0 <= i < |s| && i != |a|
      ensures !isSep(s[i])
    {
      if i < |a| {
        assert s[i] == a[i];
      } else {
        assert s[i] == b[i - |a| - 1];
      }
    }
    SplitOnce(s, |a|, isSep);
    assert s[..|a|] == a && s[|a| + 1..] == b;
  }

  lemma SplitOnce(s: string, k: nat, isSep: char -> bool)
    requires k < |s| && isSep(s[k])
    requires forall i :: 0 <= i < |s| && i != k ==> !isSep(s[i])
    ensures Split(s, isSep) == [s[..k], s[k + 1..]]
  {
    SplitAtFirst(s, k, isSep);
    SplitNoSeparator(s[k + 1..], isSep);
  }

  /** `parts.join(sep)`. */
  function Join(parts: seq<string>, sep: string): string {
    if |parts| == 0 then ""
    else if |parts| == 1 then parts[0]
    else parts[0] + sep + Join(parts[1..], sep)
  }

  /** Splitting on one character and joining with it gives the input back. */
  lemma {:induction false} SplitJoin(s: string, c: char, isSep: char -> bool)
    requires forall x :: isSep(x) <==> x == c
    ensures Join(Split(s, isSep), [c]) == s
    decreases |s|
  {
    if s != [] {
      var rest := Split(s[1..], isSep);
      SplitJoin(s[1..], c, isSep);
      if isSep(s[0]) {
        assert Split(s, isSep) == [""] + rest;
        if |rest| == 1 {
          assert Join(Split(s, isSep), [c]) == "" + [c] + rest[0];
        } else {
          assert Join(Split(s, isSep), [c]) == "" + [c] + Join(rest, [c]);
        }
      } else {
        var parts := Split(s, isSep);
        assert parts == [[s[0]] + rest[0]] + rest[1..];
        if |rest| == 1 {
          assert Join(parts, [c]) == [s[0]] + rest[0];
        } else {
          assert parts[1..] == rest[1..];
          assert Join(rest, [c]) == rest[0] + [c] + Join(rest[1..], [c]);
          assert Join(parts, [c]) == [s[0]] + rest[0] + [c] + Join(rest[1..], [c]);
        }
      }
    }
  }

  /** `s.replace(/pat/g, rep)` for a pattern without special characters and a
      replacement without `$`: every occurrence of `pat`, found left to right
      without overlap, is replaced by `rep`. */
  function ReplaceAll(s: string, pat: string, rep: string): string
    requires pat != []
    decreases |s|
  {
    if |s| < |pat| then s
    else if s[..|pat|] == pat then rep + ReplaceAll(s[|pat|..], pat, rep)
    else [s[0]] + ReplaceAll(s[1..], pat, rep)
  }

  /** A text in which the pattern does not occur is left unchanged. */
  lemma {:induction false} ReplaceAllAbsent(s: string, pat: string, rep: string)
    requires pat != []
    requires !Includes(s, pat)
    ensures ReplaceAll(s, pat, rep) == s
    decreases |s|
  {
    if |s| >= |pat| {
      ReplaceAllAbsent(s[1..], pat, rep);
      assert [s[0]] + s[1..] == s;
    }
  }

  /** Replacing by the pattern itself changes nothing. */
  lemma {:induction false} ReplaceAllSelf(s: string, pat: string)
    requires pat != []
    ensures ReplaceAll(s, pat, pat) == s
    decreases |s|
  {
    if |s| >= |pat| {
      if s[..|pat|] == pat {
        ReplaceAllSelf(s[|pat|..], pat);
        assert s[..|pat|] + s[|pat|..] == s;
      } else {
        ReplaceAllSelf(s[1..], pat);
        assert [s[0]] + s[1..] == s;
      }
    }
  }

  /** A prefix that does not hold the pattern's first character is copied
      through: no occurrence can start inside it. */
  lemma {:induction false} ReplaceAllSkipPrefix(a: string, b: string, pat: string, rep: string)
    requires pat != [] && pat[0] !in a
    ensures ReplaceAll(a + b, pat, rep) == a + ReplaceAll(b, pat, rep)
    decreases |a|
  {
    if a == [] {
      assert a + b == b;
    } else {
      assert a + b == [a[0]] + (a[1..] + b);
      ReplaceAllSkipOne(a[0], a[1..] + b, pat, rep);
      ReplaceAllSkipPrefix(a[1..], b, pat, rep);
      assert a == [a[0]] + a[1..];
    }
  }

  /** A first character that cannot start the pattern is kept as is. */
  lemma ReplaceAllSkipOne(c: char, t: string, pat: string, rep: string)
    requires pat != [] && c != pat[0]
    ensures ReplaceAll([c] + t, pat, rep) == [c] + ReplaceAll(t, pat, rep)
  {
    var s := [c] + t;
    assert s[1..] == t;
    if |s| < |pat| {
      ReplaceAllShort(t, pat, rep);
    } else {
      assert s[..|pat|][0] != pat[0];
    }
  }

  lemma ReplaceAllShort(s: string, pat: string, rep: string)
    requires pat != [] && |s| < |pat|
    ensures ReplaceAll(s, pat, rep) == s
  {
  }

  /** The first occurrence after such a prefix is replaced, and the rest of
      the text is processed from just after it. */
  lemma ReplaceAllFirst(a: string, b: string, pat: string, rep: string)
    requires pat != [] && pat[0] !in a
    ensures ReplaceAll(a + pat + b, pat, rep) == a + rep + ReplaceAll(b, pat, rep)
  {
    assert a + pat + b == a + (pat + b);
    ReplaceAllSkipPrefix(a, pat + b, pat, rep);
    assert (pat + b)[..|pat|] == pat;
    assert (pat + b)[|pat|..] == b;
  }

  /** A text that is exactly the pattern becomes exactly the replacement. */
  lemma ReplaceAllWhole(pat: string, rep: string)
    requires pat != []
    ensures ReplaceAll(pat, pat, rep) == rep
  {
    assert pat[..|pat|] == pat;
    assert pat[|pat|..] == [];
  }
}
