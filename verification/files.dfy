/** The text files between the captures and the merge.

    Every writer appends each line followed by one `\n` (`writeln!`, or
    `write!` of a string ending in `\n`).  Every reader uses
    `BufRead::lines`: it cuts the text after each `\n`, drops that `\n` and
    then one `\r` before it, and returns a last piece without `\n` only when
    it is not empty. */
module Files {

  /** The text left in a file after writing each line followed by `\n`. */
  function Render(lines: seq<string>): (text: string)
    ensures lines == [] <==> text == []
  {
    if lines == [] then "" else lines[0] + "\n" + Render(lines[1..])
  }

  /** Where the first `\n` is, or the length when there is none. */
  function LineEnd(s: string): (n: nat)
    ensures n <= |s|
    ensures n < |s| ==> s[n] == '\n'
    ensures forall k :: 0 <= k < n ==> s[k] != '\n'
  {
    if s == [] || s[0] == '\n' then 0 else 1 + LineEnd(s[1..])
  }

  /** A line without its trailing `\r`, if any. */
  function DropCr(l: string): string {
    if l != [] && l[|l| - 1] == '\r' then l[..|l| - 1] else l
  }

  /** `BufRead::lines` over a whole text. */
  function ReadLines(s: string): (ls: seq<string>)
    ensures forall k :: 0 <= k < |ls| ==> '\n' !in ls[k]
    decreases |s|
  {
    if s == [] then []
    else
      var n := LineEnd(s);
      if n == |s| then [s]
      else [DropCr(s[..n])] + ReadLines(s[n + 1..])
  }

  /** A line that survives a write and a read unchanged: no `\n` inside and
      no `\r` at its end. */
  predicate Plain(l: string) {
    '\n' !in l && (l == [] || l[|l| - 1] != '\r')
  }

  /** Reading a written file gives back the lines written, when they are
      plain. */
  lemma {:induction false} ReadRendered(lines: seq<string>)
    requires forall k :: 0 <= k < |lines| ==> Plain(lines[k])
    ensures ReadLines(Render(lines)) == lines
  {
    if lines != [] {
      var l, rest := lines[0], lines[1..];
      var s := Render(lines);
      assert s == l + "\n" + Render(rest);
      assert LineEnd(s) == |l| by {
        LineEndAt(l, Render(rest));
      }
      assert s[..|l|] == l;
      assert s[|l| + 1..] == Render(rest);
      ReadRendered(rest);
    }
  }

  /** A text that ends each of its lines with `\n` and has no `\r` before
      any `\n`. */
  predicate Terminated(s: string) {
    && (s == [] || s[|s| - 1] == '\n')
    && (forall k :: 0 < k < |s| && s[k] == '\n' ==> s[k - 1] != '\r')
  }

  /** Writing what was read reproduces a terminated text. */
  lemma {:induction false} RenderRead(s: string)
    requires Terminated(s)
    ensures Render(ReadLines(s)) == s
    decreases |s|
  {
    if s != [] {
      var n := FirstLine(s);
      var l, rest := s[..n], s[n + 1..];
      RenderRead(rest);
      assert ReadLines(s) == [l] + ReadLines(rest);
    }
  }

  /** The first line of a non-empty terminated text, read and left as is,
      and the terminated text after it. */
  lemma FirstLine(s: string) returns (n: nat)
    requires Terminated(s) && s != []
    ensures n == LineEnd(s) && n < |s|
    ensures DropCr(s[..n]) == s[..n]
    ensures Terminated(s[n + 1..])
    ensures s == s[..n] + "\n" + s[n + 1..]
  {
    n := LineEnd(s);
    var l, rest := s[..n], s[n + 1..];
    if l != [] {
      assert s[n - 1] == l[|l| - 1];
    }
    forall k | 0 < k < |rest| && rest[k] == '\n' ensures rest[k - 1] != '\r' {
      assert rest[k] == s[n + 1 + k] && rest[k - 1] == s[n + k];
    }
  }

  lemma {:induction false} LineEndAt(l: string, rest: string)
    requires '\n' !in l
    ensures LineEnd(l + "\n" + rest) == |l|
    decreases |l|
  {
    if l != [] {
      assert (l + "\n" + rest)[1..] == l[1..] + "\n" + rest;
      LineEndAt(l[1..], rest);
    }
  }
}
