/**
 * The text formatting of `loadText`: the fetched text is split at every
 * '\n', each line whose trim is empty becomes `<br>` and every other line is
 * wrapped, untrimmed, in `<div>`..`</div>`; the fragments are joined with no
 * separator. Fetching the file and writing the element are left to the caller.
 */
module LoadText {

  /** The characters `String.prototype.trim` removes: white space and line terminators. */
  predicate IsJsSpace(c: char)
  {
    var n := c as int;
    n == 0x09 || n == 0x0B || n == 0x0C || n == 0x20 || n == 0xA0 || n == 0xFEFF ||
    n == 0x0A || n == 0x0D || n == 0x2028 || n == 0x2029 ||
    n == 0x1680 || (0x2000 <= n <= 0x200A) || n == 0x202F || n == 0x205F || n == 0x3000
  }

  /** `line.trim() === ''`: the line is white space only. */
  predicate Blank(line: string)
  {
    forall i :: 0 <= i < |line| ==> IsJsSpace(line[i])
  }

  /** The first '\n' of `s`, if any. */
  function NewlineAt(s: string): (r: int)
    ensures -1 <= r < |s|
    ensures r == -1 <==> '\n' !in s
    ensures 0 <= r ==> s[r] == '\n' && '\n' !in s[..r]
  {
    if s == [] then -1
    else if s[0] == '\n' then 0
    else
      var k := NewlineAt(s[1..]);
      assert s[1..] == s[1..][..|s| - 1];
      if k == -1 then (assert s == [s[0]] + s[1..]; -1)
      else (assert s[..k + 1] == [s[0]] + s[1..][..k]; k + 1)
  }

  /** `text.split('\n')`. */
  function Lines(s: string): (r: seq<string>)
    ensures |r| >= 1
    ensures forall k :: 0 <= k < |r| ==> '\n' !in r[k]
    decreases |s|
  {
    var k := NewlineAt(s);
    if k == -1 then [s] else [s[..k]] + Lines(s[k + 1..])
  }

  /** `lines.join('\n')`. */
  function JoinLines(ls: seq<string>): string
    requires |ls| >= 1
  {
    if |ls| == 1 then ls[0] else ls[0] + "\n" + JoinLines(ls[1..])
  }

  /** Splitting loses nothing: joining the lines back with '\n' gives the text. */
  lemma {:induction false} LinesJoin(s: string)
    ensures JoinLines(Lines(s)) == s
    decreases |s|
  {
    var k := NewlineAt(s);
    if k != -1 {
      var rest := s[k + 1..];
      var ls := Lines(s);
      assert ls == [s[..k]] + Lines(rest);
      assert ls[0] == s[..k] && ls[1..] == Lines(rest) && |ls| > 1;
      LinesJoin(rest);
      SplitAtNewline(s, k);
    }
  }

  lemma SplitAtNewline(s: string, k: nat)
    requires k < |s| && s[k] == '\n'
    ensures s == s[..k] + "\n" + s[k + 1..]
  {
  }

  /** The fragment for one line. */
  function Fragment(line: string): string
  {
    if Blank(line) then "<br>" else "<div>" + line + "</div>"
  }

  /** `.map(...).join('')`. */
  function Fragments(ls: seq<string>): string
  {
    if ls == [] then [] else Fragment(ls[0]) + Fragments(ls[1..])
  }

  function FormatText(text: string): string
  {
    Fragments(Lines(text))
  }

  lemma FragmentsSingle(line: string)
    ensures Fragments([line]) == Fragment(line)
  {
    assert [line][1..] == [];
    assert Fragment(line) + [] == Fragment(line);
  }

  /** Text without '\n' is a single fragment; empty text is exactly `<br>`. */
  lemma FormatTextSingle(text: string)
    requires '\n' !in text
    ensures FormatText(text) == Fragment(text)
    ensures text == [] ==> FormatText(text) == "<br>"
  {
    assert Lines(text) == [text];
    FragmentsSingle(text);
  }

  /** The formatted text is the first line's fragment followed by the formatted rest after the first '\n'. */
  lemma FormatTextStep(text: string)
    requires '\n' in text
    ensures FormatText(text) == Fragment(text[..NewlineAt(text)]) + FormatText(text[NewlineAt(text) + 1..])
  {
    var k := NewlineAt(text);
    var ls := Lines(text);
    assert ls == [text[..k]] + Lines(text[k + 1..]);
    assert ls[1..] == Lines(text[k + 1..]);
  }

  /** A blank line gives `<br>`; any other gives the untrimmed line wrapped in a div. */
  lemma FragmentShape(line: string)
    ensures Blank(line) ==> Fragment(line) == "<br>"
    ensures !Blank(line) ==> Fragment(line)[..5] == "<div>"
    ensures !Blank(line) ==> |Fragment(line)| == |line| + 11 && Fragment(line)[5..|line| + 5] == line
    ensures !Blank(line) ==> Fragment(line)[|line| + 5..] == "</div>"
  {
  }

  /** The fragments of a list of lines are the fragments of each, in order, with nothing in between. */
  lemma {:induction false} FragmentsAppend(a: seq<string>, b: seq<string>)
    ensures Fragments(a + b) == Fragments(a) + Fragments(b)
  {
    if a != [] {
      assert (a + b)[1..] == a[1..] + b;
      FragmentsAppend(a[1..], b);
    } else {
      assert a + b == b;
    }
  }
}
