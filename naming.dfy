/**
 * `to_camel_case_with_capital`, defined identically in the palm script and
 * in the upload server: split the name on runs of whitespace, capitalize
 * each word (first letter upper case, the rest lower case) and concatenate.
 * Characters are ASCII here: case mapping touches only 'A'..'Z' and
 * 'a'..'z', and whitespace is the ASCII whitespace of Python's `str.split`.
 */
module Naming {

  /** Python's ASCII whitespace: space, \t, \n, \v, \f, \r and the separators \x1c..\x1f. */
  predicate IsSpace(c: char)
  {
    c == ' ' || 9 <= c as int <= 13 || 28 <= c as int <= 31
  }

  /** One character upper-cased: an ASCII lower-case letter becomes its capital, anything else is kept. */
  function Upper(c: char): (r: char)
    ensures IsSpace(r) <==> IsSpace(c)
    ensures 'a' <= c <= 'z' ==> 'A' <= r <= 'Z' && r as int - 'A' as int == c as int - 'a' as int
    ensures !('a' <= c <= 'z') ==> r == c
  {
    if 'a' <= c <= 'z' then (c as int - 'a' as int + 'A' as int) as char else c
  }

  /** One character lower-cased: an ASCII capital becomes its small letter, anything else is kept. */
  function Lower(c: char): (r: char)
    ensures IsSpace(r) <==> IsSpace(c)
    ensures 'A' <= c <= 'Z' ==> 'a' <= r <= 'z' && r as int - 'a' as int == c as int - 'A' as int
    ensures !('A' <= c <= 'Z') ==> r == c
  {
    if 'A' <= c <= 'Z' then (c as int - 'A' as int + 'a' as int) as char else c
  }

  /** `w` holds no whitespace. */
  predicate NoSpace(w: string)
  {
    forall i :: 0 <= i < |w| ==> !IsSpace(w[i])
  }

  /** `w` is whitespace only. */
  predicate AllSpace(w: string)
  {
    forall i :: 0 <= i < |w| ==> IsSpace(w[i])
  }

  /** Case-insensitive equality of two strings. */
  predicate SameUpToCase(s: string, t: string)
  {
    |s| == |t| && forall i :: 0 <= i < |s| ==> Lower(s[i]) == Lower(t[i])
  }

  /** `str.capitalize`: the first character upper case, every other lower case. */
  function Capitalize(w: string): (r: string)
    ensures |r| == |w|
  {
    if w == [] then [] else [Upper(w[0])] + LowerAll(w[1..])
  }

  function LowerAll(w: string): (r: string)
    ensures |r| == |w|
  {
    if w == [] then [] else [Lower(w[0])] + LowerAll(w[1..])
  }

  /** `s` with its leading whitespace removed. */
  function SkipSpace(s: string): (r: string)
    ensures |r| <= |s| && r == s[|s| - |r|..]
    ensures r != [] ==> !IsSpace(r[0])
    ensures AllSpace(s[..|s| - |r|])
  {
    if s != [] && IsSpace(s[0]) then SkipSpace(s[1..]) else s
  }

  /** The longest prefix of `s` without whitespace. */
  function WordAt(s: string): (r: string)
    ensures |r| <= |s| && r == s[..|r|]
    ensures NoSpace(r)
    ensures |r| < |s| ==> IsSpace(s[|r|])
    ensures s != [] && !IsSpace(s[0]) ==> |r| > 0
  {
    if s != [] && !IsSpace(s[0]) then [s[0]] + WordAt(s[1..]) else []
  }

  /** `str.split()` with no separator: the maximal runs of non-whitespace, in order. */
  function Words(s: string): (r: seq<string>)
    ensures forall k :: 0 <= k < |r| ==> r[k] != [] && NoSpace(r[k])
    decreases |s|
  {
    var t := SkipSpace(s);
    if t == [] then []
    else
      var w := WordAt(t);
      [w] + Words(t[|w|..])
  }

  function Join(ws: seq<string>): string
  {
    if ws == [] then [] else ws[0] + Join(ws[1..])
  }

  /** `"".join(word.capitalize() for word in words)`. */
  function JoinCapitalized(ws: seq<string>): string
  {
    if ws == [] then [] else Capitalize(ws[0]) + JoinCapitalized(ws[1..])
  }

  function CamelCase(name: string): string
  {
    JoinCapitalized(Words(name))
  }

  /** `s` with every whitespace character removed. */
  function Strip(s: string): (r: string)
    ensures forall i :: 0 <= i < |r| ==> !IsSpace(r[i])
  {
    if s == [] then [] else (if IsSpace(s[0]) then [] else [s[0]]) + Strip(s[1..])
  }

  /**
   * The reference reading of the rule, one character at a time: whitespace
   * is dropped, a character right after whitespace (or first) is upper-cased,
   * any other is lower-cased.
   */
  function Scan(s: string, wordStart: bool): (r: string)
    ensures forall i :: 0 <= i < |r| ==> !IsSpace(r[i])
    ensures |r| == |Strip(s)|
  {
    if s == [] then []
    else if IsSpace(s[0]) then Scan(s[1..], true)
    else [if wordStart then Upper(s[0]) else Lower(s[0])] + Scan(s[1..], false)
  }

  lemma {:induction false} StripAppend(s: string, t: string)
    ensures Strip(s + t) == Strip(s) + Strip(t)
  {
    if s != [] {
      assert (s + t)[1..] == s[1..] + t;
      StripAppend(s[1..], t);
    } else {
      assert s + t == t;
    }
  }

  lemma {:induction false} StripAllSpace(s: string)
    requires AllSpace(s)
    ensures Strip(s) == []
  {
    if s != [] {
      StripAllSpace(s[1..]);
    }
  }

  lemma {:induction false} StripNoSpace(s: string)
    requires NoSpace(s)
    ensures Strip(s) == s
  {
    if s != [] {
      StripNoSpace(s[1..]);
    }
  }

  /** Splitting loses exactly the whitespace: the words, joined, are the input without it. */
  lemma {:induction false} WordsJoin(s: string)
    ensures Join(Words(s)) == Strip(s)
    decreases |s|
  {
    var t := SkipSpace(s);
    StripSkipSpace(s);
    if t != [] {
      var w := WordAt(t);
      var rest := t[|w|..];
      StripWord(t);
      WordsJoin(rest);
      WordsStep(s);
    }
  }

  /** Leading whitespace does not survive stripping. */
  lemma StripSkipSpace(s: string)
    ensures Strip(s) == Strip(SkipSpace(s))
  {
    var t := SkipSpace(s);
    var lead := s[..|s| - |t|];
    assert s == lead + t;
    StripAppend(lead, t);
    StripAllSpace(lead);
  }

  /** A string that starts with a word strips to the word, then the stripped rest. */
  lemma StripWord(t: string)
    requires t != [] && !IsSpace(t[0])
    ensures Strip(t) == WordAt(t) + Strip(t[|WordAt(t)|..])
  {
    var w := WordAt(t);
    assert t == w + t[|w|..];
    StripAppend(w, t[|w|..]);
    StripNoSpace(w);
  }

  /** One step of the split: the first word, then the words of what follows it. */
  lemma WordsStep(s: string)
    requires SkipSpace(s) != []
    ensures var t := SkipSpace(s); var w := WordAt(t);
      Join(Words(s)) == w + Join(Words(t[|w|..])) &&
      JoinCapitalized(Words(s)) == Capitalize(w) + JoinCapitalized(Words(t[|w|..]))
  {
    var t := SkipSpace(s);
    var w := WordAt(t);
    var ws := Words(t[|w|..]);
    assert Words(s) == [w] + ws;
    assert ([w] + ws)[1..] == ws;
  }

  /** Leading whitespace only marks the next character as a word start. */
  lemma {:induction false} ScanSkipSpace(s: string)
    ensures Scan(s, true) == Scan(SkipSpace(s), true)
  {
    if s != [] && IsSpace(s[0]) {
      ScanSkipSpace(s[1..]);
    }
  }

  /** Inside a word every character is lower-cased. */
  lemma {:induction false} ScanInsideWord(w: string, rest: string)
    requires NoSpace(w)
    ensures Scan(w + rest, false) == LowerAll(w) + Scan(rest, false)
  {
    if w != [] {
      assert (w + rest)[1..] == w[1..] + rest;
      ScanInsideWord(w[1..], rest);
    } else {
      assert w + rest == rest;
    }
  }

  /** At the end of a word the flag no longer matters. */
  lemma ScanAtBoundary(rest: string)
    requires rest == [] || IsSpace(rest[0])
    ensures Scan(rest, false) == Scan(rest, true)
  {
  }

  /** The split-capitalize-join pipeline is the character scan. */
  lemma {:induction false} CamelCaseIsScan(s: string)
    ensures CamelCase(s) == Scan(s, true)
    decreases |s|
  {
    var t := SkipSpace(s);
    ScanSkipSpace(s);
    if t != [] {
      var w := WordAt(t);
      CamelCaseIsScan(t[|w|..]);
      WordsStep(s);
      WordScan(t);
    }
  }

  /** A string that starts with a word scans to the capitalized word, then the rest. */
  lemma WordScan(t: string)
    requires t != [] && !IsSpace(t[0])
    ensures Scan(t, true) == Capitalize(WordAt(t)) + Scan(t[|WordAt(t)|..], true)
  {
    var w := WordAt(t);
    var rest := t[|w|..];
    WordParts(t);
    ScanInsideWord(w[1..], rest);
    ScanAtBoundary(rest);
    assert Scan(t, true) == [Upper(t[0])] + (LowerAll(w[1..]) + Scan(rest, true));
    AppendAssoc([Upper(t[0])], LowerAll(w[1..]), Scan(rest, true));
  }

  lemma AppendAssoc(a: string, b: string, c: string)
    ensures a + (b + c) == (a + b) + c
  {
  }

  /** The word at the start of t: its first character, a whitespace-free tail, and a boundary after it. */
  lemma WordParts(t: string)
    requires t != [] && !IsSpace(t[0])
    ensures var w := WordAt(t); var rest := t[|w|..];
      |w| > 0 && w[0] == t[0] && t[1..] == w[1..] + rest && NoSpace(w[1..]) && (rest == [] || IsSpace(rest[0]))
  {
    var w := WordAt(t);
    var tail := w[1..];
    SliceSplit(t, 1, |w|);
    assert tail == t[1..|w|];
    assert NoSpace(tail) by {
      forall i | 0 <= i < |tail| ensures !IsSpace(tail[i]) {
        assert tail[i] == w[i + 1];
      }
    }
  }

  lemma SliceSplit(s: string, a: nat, b: nat)
    requires a <= b <= |s|
    ensures s[a..] == s[a..b] + s[b..]
  {
  }

  /** The scan keeps every non-whitespace character, in order, up to case, and only those. */
  lemma {:induction false} ScanStrip(s: string, wordStart: bool)
    ensures SameUpToCase(Scan(s, wordStart), Strip(s))
    ensures forall i :: 0 <= i < |Scan(s, wordStart)| ==> !IsSpace(Scan(s, wordStart)[i])
  {
    if s != [] {
      ScanStrip(s[1..], IsSpace(s[0]));
      if !IsSpace(s[0]) {
        var c := if wordStart then Upper(s[0]) else Lower(s[0]);
        assert Lower(c) == Lower(s[0]);
        SameUpToCaseAppend([c], [s[0]], Scan(s[1..], false), Strip(s[1..]));
      }
    }
  }

  lemma SameUpToCaseAppend(a: string, b: string, c: string, d: string)
    requires SameUpToCase(a, b) && SameUpToCase(c, d)
    ensures SameUpToCase(a + c, b + d)
  {
    forall i | 0 <= i < |a + c|
      ensures Lower((a + c)[i]) == Lower((b + d)[i])
    {
      if i >= |a| {
        assert (a + c)[i] == c[i - |a|] && (b + d)[i] == d[i - |b|];
      }
    }
  }

  /**
   * `to_camel_case_with_capital`: the result has no whitespace, has one
   * character per non-whitespace character of the name and equals the name
   * without whitespace up to letter case; its first character is the first
   * non-whitespace character upper-cased; an empty or all-whitespace name
   * gives "".
   */
  lemma CamelCaseShape(name: string)
    ensures SameUpToCase(CamelCase(name), Strip(name))
    ensures forall i :: 0 <= i < |CamelCase(name)| ==> !IsSpace(CamelCase(name)[i])
    ensures SkipSpace(name) != [] ==> |CamelCase(name)| > 0 && CamelCase(name)[0] == Upper(SkipSpace(name)[0])
    ensures AllSpace(name) ==> CamelCase(name) == []
  {
    CamelCaseIsScan(name);
    ScanStrip(name, true);
    ScanSkipSpace(name);
    if AllSpace(name) {
      StripAllSpace(name);
    }
  }
}
