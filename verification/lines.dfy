/** Reading one line of a log and splitting it into its date token and message.

    A read from a line iterator yields end of file, an I/O error, or a line
    (`Option<Result<String, io::Error>>`).  `get_line` hands the line over
    verbatim; `get_line_split` splits it on whitespace, takes the first token
    as the date and joins the remaining tokens with single spaces as the
    message.  A line with no token at all makes `get_line_split` panic. */
module Lines {
  import opened Timestamp

  datatype Read = Eof | IoError | Line(text: string)

  /** Why no line or no stamped line was obtained. */
  datatype LineError = EndOfFile | ReadFailed | BadTimestamp

  datatype Result<T> = Ok(value: T) | Err(error: LineError)

  /** What `get_line_split` does with a read: a date and a message, an error,
      or a panic (`split.next().unwrap()` on a line without any token). */
  datatype Split = Split(date: DateTime, msg: string) | Failed(error: LineError) | Panicked

  /** What a capture or merge left behind: every line it wrote, and whether it
      ran to its end or was cut short by a panic. */
  datatype Outcome = Complete(lines: seq<string>) | Aborted(lines: seq<string>)

  /** A line of a log together with how `get_line_split` reads it. */
  datatype Entry = Entry(text: string, view: Split)

  // ---------------------------------------------------------------------------
  // Whitespace tokens

  /** Rust's `char::is_whitespace`: the Unicode White_Space property. */
  predicate IsSpace(c: char) {
    || c == ' ' || ('\t' <= c <= '\r')
    || c == '\U{85}' || c == '\U{A0}' || c == '\U{1680}'
    || ('\U{2000}' <= c <= '\U{200A}')
    || c == '\U{2028}' || c == '\U{2029}' || c == '\U{202F}' || c == '\U{205F}' || c == '\U{3000}'
  }

  /** A non-empty run of non-whitespace characters. */
  predicate IsWord(w: string) {
    w != [] && forall k :: 0 <= k < |w| ==> !IsSpace(w[k])
  }

  /** A line made of whitespace only (possibly empty). */
  predicate Blank(s: string) {
    forall k :: 0 <= k < |s| ==> IsSpace(s[k])
  }

  /** `s` without its leading whitespace. */
  function SkipSpace(s: string): (t: string)
    ensures |t| <= |s| && t == s[|s| - |t|..]
    ensures t == [] || !IsSpace(t[0])
    ensures forall k :: 0 <= k < |s| - |t| ==> IsSpace(s[k])
  {
    if s != [] && IsSpace(s[0]) then
      var t := SkipSpace(s[1..]);
      assert forall k :: 1 <= k < |s| ==> s[k] == s[1..][k - 1];
      t
    else s
  }

  /** Length of the leading run of non-whitespace characters. */
  function WordLength(s: string): (n: nat)
    ensures n <= |s|
    ensures forall k :: 0 <= k < n ==> !IsSpace(s[k])
    ensures n == |s| || IsSpace(s[n])
  {
    if s == [] || IsSpace(s[0]) then 0 else 1 + WordLength(s[1..])
  }

  /** `s.split_whitespace()`: the maximal non-whitespace runs, in order. */
  function Tokens(s: string): (ts: seq<string>)
    ensures forall k :: 0 <= k < |ts| ==> IsWord(ts[k])
    ensures ts == [] <==> Blank(s)
    decreases |s|
  {
    var t := SkipSpace(s);
    if t == [] then []
    else
      assert s[|s| - |t|] == t[0] && !IsSpace(t[0]);
      var n := WordLength(t);
      var rest := Tokens(t[n..]);
      WordsCons(t[..n], rest);
      [t[..n]] + rest
  }

  lemma WordsCons(w: string, ws: seq<string>)
    requires w != [] && forall k :: 0 <= k < |w| ==> !IsSpace(w[k])
    requires forall k :: 0 <= k < |ws| ==> IsWord(ws[k])
    ensures forall k :: 0 <= k < |[w] + ws| ==> IsWord(([w] + ws)[k])
  {
  }

  /** `join(" ")`. */
  function Join(ts: seq<string>): string {
    if ts == [] then ""
    else if |ts| == 1 then ts[0]
    else ts[0] + " " + Join(ts[1..])
  }

  /** A message in the form `Join` produces: words separated by single plain
      spaces, with no whitespace at either end. */
  predicate SingleSpaced(m: string) {
    && (forall k :: 0 <= k < |m| && IsSpace(m[k]) ==> m[k] == ' ' && 0 < k < |m| - 1)
    && (forall k :: 0 <= k < |m| - 1 && IsSpace(m[k]) ==> !IsSpace(m[k + 1]))
  }

  // ---------------------------------------------------------------------------
  // Reads

  /** `get_line`: the line as read, or the reason there is none. */
  function GetLine(r: Read): (res: Result<string>)
    ensures res.Ok? <==> r.Line?
    ensures res.Ok? ==> res.value == r.text
  {
    match r
    case Line(text) => Ok(text)
    case IoError => Err(ReadFailed)
    case Eof => Err(EndOfFile)
  }

  /** `get_line_split`: the first token read as a date after turning `,` into
      `.`, and the remaining tokens joined by single spaces. */
  function GetLineSplit(r: Read): (res: Split)
    ensures res.Panicked? <==> r.Line? && Blank(r.text)
    ensures res.Split? ==> r.Line? && ParseDate(Tokens(r.text)[0]) == Some(res.date) && Valid(res.date)
    ensures res.Failed? && res.error == BadTimestamp ==> r.Line? && ParseDate(Tokens(r.text)[0]).None?
    ensures r.Line? && Tokens(r.text) != [] && ParseDate(Tokens(r.text)[0]).Some? ==>
      res == Split(ParseDate(Tokens(r.text)[0]).value, Join(Tokens(r.text)[1..]))
    ensures r.Line? && Tokens(r.text) != [] && ParseDate(Tokens(r.text)[0]).None? ==>
      res == Failed(BadTimestamp)
    ensures r.Eof? ==> res == Failed(EndOfFile)
    ensures r.IoError? ==> res == Failed(ReadFailed)
  {
    match r
    case Eof => Failed(EndOfFile)
    case IoError => Failed(ReadFailed)
    case Line(text) => SplitTokens(Tokens(text))
  }

  /** The date and message of a line given as its whitespace tokens. */
  function SplitTokens(ts: seq<string>): (res: Split)
    ensures res.Panicked? <==> ts == []
    ensures res.Split? ==> ts != [] && ParseDate(ts[0]) == Some(res.date) && Valid(res.date)
    ensures res.Failed? ==> ts != [] && res.error == BadTimestamp && ParseDate(ts[0]).None?
    ensures ts != [] && ParseDate(ts[0]).Some? ==> res == Split(ParseDate(ts[0]).value, Join(ts[1..]))
  {
    if ts == [] then Panicked
    else
      var date := ParseDate(ts[0]);
      if date.Some? then Split(date.value, Join(ts[1..])) else Failed(BadTimestamp)
  }

  /** Every line of a log, each with its reading. */
  function Entries(file: seq<string>): (es: seq<Entry>)
    ensures |es| == |file|
    ensures forall k :: 0 <= k < |file| ==> es[k].text == file[k]
  {
    seq(|file|, k requires 0 <= k < |file| => Entry(file[k], GetLineSplit(Line(file[k]))))
  }

  /** The lines of a log, without their readings. */
  function Texts(es: seq<Entry>): (ts: seq<string>)
    ensures |ts| == |es|
  {
    seq(|es|, k requires 0 <= k < |es| => es[k].text)
  }

  // ---------------------------------------------------------------------------
  // Properties

  lemma TextsOfEntries(file: seq<string>)
    ensures Texts(Entries(file)) == file
  {
  }

  lemma TokensSkipSpace(s: string)
    ensures Tokens(s) == Tokens(SkipSpace(s))
  {
  }

  /** Whitespace gaps and words laid alternately:
      `gaps[0] + words[0] + gaps[1] + ... + words[n - 1] + gaps[n]`. */
  function Weave(gaps: seq<string>, words: seq<string>): string
    requires |gaps| == |words| + 1
    decreases |words|
  {
    if words == [] then gaps[0] else gaps[0] + words[0] + Weave(gaps[1..], words[1..])
  }

  /** Gaps that separate words: all whitespace, and never empty between two
      words. */
  predicate Separates(gaps: seq<string>) {
    && (forall k :: 0 <= k < |gaps| ==> Blank(gaps[k]))
    && (forall k :: 0 < k < |gaps| - 1 ==> gaps[k] != [])
  }

  /** `split_whitespace` on any text: the text is its tokens in order with
      runs of whitespace around and between them, so the tokens are exactly
      the maximal non-whitespace runs and a message keeps its words but not
      its spacing. */
  lemma {:induction false} TokensSplitText(s: string) returns (gaps: seq<string>)
    ensures |gaps| == |Tokens(s)| + 1 && Separates(gaps)
    ensures s == Weave(gaps, Tokens(s))
    ensures |gaps[0]| == |s| - |SkipSpace(s)|
    decreases |s|
  {
    var t := SkipSpace(s);
    if t == [] {
      gaps := [s];
      BlankText(s);
    } else {
      var rest := t[WordLength(t)..];
      var more := TokensSplitText(rest);
      gaps := WeaveStep(s, more);
    }
  }

  /** A blank text is a single gap with no token. */
  lemma BlankText(s: string)
    requires SkipSpace(s) == []
    ensures Tokens(s) == [] && Separates([s]) && s == Weave([s], [])
  {
    assert Blank(s);
  }

  /** One step of `TokensSplitText`: the gaps around the tokens after the
      first word, extended by the whitespace before that word. */
  lemma WeaveStep(s: string, more: seq<string>) returns (gaps: seq<string>)
    requires SkipSpace(s) != []
    requires var t := SkipSpace(s); var rest := t[WordLength(t)..];
      && |more| == |Tokens(rest)| + 1 && Separates(more)
      && rest == Weave(more, Tokens(rest))
      && |more[0]| == |rest| - |SkipSpace(rest)|
    ensures |gaps| == |Tokens(s)| + 1 && Separates(gaps)
    ensures s == Weave(gaps, Tokens(s))
    ensures |gaps[0]| == |s| - |SkipSpace(s)|
  {
    var t := SkipSpace(s);
    var lead := s[..|s| - |t|];
    LeadingGap(s);
    var n := WordLength(t);
    var w, rest := t[..n], t[n..];
    FirstWord(s, lead, t, n);
    TokensStart(s);
    if rest != [] {
      GapAfterWord(rest);
    } else {
      TokensOfNothing();
    }
    gaps := [lead] + more;
    Assemble(s, lead, w, rest, more, Tokens(rest));
  }

  /** The whitespace in front of the first token. */
  lemma LeadingGap(s: string)
    ensures var t := SkipSpace(s); var lead := s[..|s| - |t|];
      s == lead + t && Blank(lead)
  {
    var t := SkipSpace(s);
    var lead := s[..|s| - |t|];
    assert s == lead + t;
    forall k | 0 <= k < |lead| ensures IsSpace(lead[k]) {
      assert lead[k] == s[k];
    }
  }

  /** A text cut into its leading whitespace, its first word and what
      follows, which starts with whitespace unless it is empty. */
  lemma FirstWord(s: string, lead: string, t: string, n: nat)
    requires s == lead + t && n == WordLength(t)
    ensures s == lead + t[..n] + t[n..]
    ensures t[n..] != [] ==> IsSpace(t[n..][0])
  {
    SplitAt(t, n);
    assert lead + t == lead + (t[..n] + t[n..]);
    if n < |t| {
      assert t[n..][0] == t[n];
    }
  }

  lemma TokensOfNothing()
    ensures Tokens([]) == []
  {
    assert Blank([]);
  }

  /** Putting a blank gap and a word in front of a woven text. */
  lemma Assemble(s: string, lead: string, w: string, rest: string, more: seq<string>, ws: seq<string>)
    requires Blank(lead) && Separates(more) && |more| == |ws| + 1
    requires ws != [] ==> more[0] != []
    requires rest == Weave(more, ws) && s == lead + w + rest
    ensures Separates([lead] + more) && s == Weave([lead] + more, [w] + ws)
  {
    SeparatesCons(lead, more, |ws|);
    WeaveCons(lead, w, more, ws);
  }

  lemma SplitAt(s: string, n: nat)
    requires n <= |s|
    ensures s == s[..n] + s[n..]
  {
  }

  /** The first token of a text that is not blank, and the text after it. */
  lemma TokensStart(s: string)
    requires SkipSpace(s) != []
    ensures var t := SkipSpace(s);
      Tokens(s) == [t[..WordLength(t)]] + Tokens(t[WordLength(t)..])
  {
  }

  /** What follows a word and still holds a token starts with whitespace. */
  lemma GapAfterWord(rest: string)
    requires rest != [] && IsSpace(rest[0])
    ensures |SkipSpace(rest)| < |rest|
  {
  }

  lemma SeparatesCons(lead: string, more: seq<string>, n: nat)
    requires Blank(lead) && Separates(more) && |more| == n + 1
    requires n > 0 ==> more[0] != []
    ensures Separates([lead] + more)
  {
    var g := [lead] + more;
    forall k | 0 <= k < |g| ensures Blank(g[k]) {
      if k > 0 { assert g[k] == more[k - 1]; }
    }
    forall k | 0 < k < |g| - 1 ensures g[k] != [] {
      assert g[k] == more[k - 1];
    }
  }

  lemma WeaveCons(g: string, w: string, gaps: seq<string>, words: seq<string>)
    requires |gaps| == |words| + 1
    ensures Weave([g] + gaps, [w] + words) == g + w + Weave(gaps, words)
  {
    assert ([g] + gaps)[1..] == gaps && ([w] + words)[1..] == words;
  }

  /** A word followed by a space contributes exactly itself as first token. */
  lemma TokensAfterWord(w: string, rest: string)
    requires IsWord(w)
    ensures Tokens(w + " " + rest) == [w] + Tokens(rest)
  {
    var s := w + " " + rest;
    WordThenSpace(w, rest);
    TokensOfLeadingWord(s);
    TokensAfterSpace(rest);
  }

  /** How a word followed by a space and more text divides. */
  lemma WordThenSpace(w: string, rest: string)
    requires IsWord(w)
    ensures var s := w + " " + rest;
      && s != [] && !IsSpace(s[0]) && WordLength(s) == |w|
      && s[..|w|] == w && s[|w|..] == " " + rest
  {
    var s := w + " " + rest;
    forall k | 0 <= k < |w| ensures !IsSpace(s[k]) {
      assert s[k] == w[k];
    }
    assert s[|w|] == ' ';
    WordLengthAt(s, |w|);
    assert s[..|w|] == w && s[|w|..] == " " + rest;
  }

  /** The length of the leading word is where the first whitespace is. */
  lemma {:induction false} WordLengthAt(s: string, n: nat)
    requires n < |s| && IsSpace(s[n])
    requires forall k :: 0 <= k < n ==> !IsSpace(s[k])
    ensures WordLength(s) == n
  {
    if n > 0 {
      var t := s[1..];
      forall k | 0 <= k < n - 1 ensures !IsSpace(t[k]) {
        assert t[k] == s[k + 1];
      }
      assert t[n - 1] == s[n];
      WordLengthAt(t, n - 1);
    }
  }

  /** A text that starts with a word tokenizes as that word and the rest. */
  lemma TokensOfLeadingWord(s: string)
    requires s != [] && !IsSpace(s[0])
    ensures Tokens(s) == [s[..WordLength(s)]] + Tokens(s[WordLength(s)..])
  {
    assert SkipSpace(s) == s;
  }

  /** Leading whitespace does not change the tokens. */
  lemma TokensAfterSpace(rest: string)
    ensures Tokens(" " + rest) == Tokens(rest)
  {
    assert (" " + rest)[1..] == rest;
    assert SkipSpace(" " + rest) == SkipSpace(rest);
    TokensSkipSpace(" " + rest);
    TokensSkipSpace(rest);
  }

  lemma TokensOfWord(w: string)
    requires IsWord(w)
    ensures Tokens(w) == [w]
  {
    assert SkipSpace(w) == w;
    assert WordLength(w) == |w|;
    assert w[|w|..] == [];
    assert w[..|w|] == w;
  }

  /** Splitting what `Join` produced gives back the words that were joined. */
  lemma {:induction false} TokensOfJoin(ws: seq<string>)
    requires forall k :: 0 <= k < |ws| ==> IsWord(ws[k])
    ensures Tokens(Join(ws)) == ws
  {
    if |ws| == 1 {
      TokensOfWord(ws[0]);
    } else if |ws| > 1 {
      JoinCons(ws);
      TokensOfJoin(ws[1..]);
      TokensAfterWord(ws[0], Join(ws[1..]));
    }
  }

  lemma JoinCons(ws: seq<string>)
    requires |ws| > 1
    ensures Join(ws) == ws[0] + " " + Join(ws[1..])
    ensures [ws[0]] + ws[1..] == ws
  {
  }

  /** A single-spaced message survives splitting and re-joining unchanged. */
  lemma {:induction false} JoinTokensOfSingleSpaced(m: string)
    requires SingleSpaced(m)
    ensures Join(Tokens(m)) == m
    decreases |m|
  {
    if m != [] {
      assert !IsSpace(m[0]);
      assert SkipSpace(m) == m;
      var n := WordLength(m);
      if n == |m| {
        TokensOfWord(m);
      } else {
        var w, rest := m[..n], m[n + 1..];
        assert m[n] == ' ' && 0 < n < |m| - 1;
        assert !IsSpace(m[n + 1]);
        assert m == w + " " + rest;
        assert SingleSpaced(rest) by {
          forall k | 0 <= k < |rest| && IsSpace(rest[k])
            ensures rest[k] == ' ' && 0 < k < |rest| - 1
          {
            assert rest[k] == m[n + 1 + k];
          }
          forall k | 0 <= k < |rest| - 1 && IsSpace(rest[k])
            ensures !IsSpace(rest[k + 1])
          {
            assert rest[k] == m[n + 1 + k] && rest[k + 1] == m[n + 2 + k];
          }
        }
        TokensAfterWord(w, rest);
        assert !Blank(rest);
        JoinTokensOfSingleSpaced(rest);
        var ts := Tokens(rest);
        assert Tokens(m) == [w] + ts;
        assert ([w] + ts)[1..] == ts;
      }
    }
  }

  /** A stamped record `<stamp> <text>` splits into the stamp's date and the
      text's words joined by single spaces. */
  lemma SplitStampedRecord(dt: DateTime, text: string)
    requires Valid(dt)
    ensures GetLineSplit(Line(Format(dt) + " " + text)) == Split(dt, Join(Tokens(text)))
  {
    StampIsWord(dt);
    TokensAfterWord(Format(dt), text);
    FormatRoundTrip(dt);
    SplitOfTokens(Format(dt) + " " + text, Format(dt), Tokens(text), dt);
  }

  /** A line whose first token parses splits into that date and the other
      tokens joined. */
  lemma SplitOfTokens(text: string, w: string, rest: seq<string>, d: DateTime)
    requires Tokens(text) == [w] + rest && ParseDate(w) == Some(d)
    ensures GetLineSplit(Line(text)) == Split(d, Join(rest))
  {
    SplitTokensCons(w, rest, d);
  }

  lemma SplitTokensCons(w: string, rest: seq<string>, d: DateTime)
    requires ParseDate(w) == Some(d)
    ensures SplitTokens([w] + rest) == Split(d, Join(rest))
  {
    assert ([w] + rest)[1..] == rest;
  }

  lemma StampIsWord(dt: DateTime)
    requires Valid(dt)
    ensures IsWord(Format(dt))
  {
    var stamp := Format(dt);
    forall k | 0 <= k < |stamp| ensures !IsSpace(stamp[k]) {
      StampCharacters(dt, k);
    }
  }

  lemma StampCharacters(dt: DateTime, k: nat)
    requires Valid(dt) && k < 31
    ensures IsDigit(Format(dt)[k]) || Format(dt)[k] in "-T:.+"
  {
  }

  /** Splitting a record written as `<stamp> <msg>` with a single-spaced
      message returns that message unchanged. */
  lemma SplitRecordRoundTrip(dt: DateTime, msg: string)
    requires Valid(dt) && SingleSpaced(msg)
    ensures GetLineSplit(Line(Format(dt) + " " + msg)) == Split(dt, msg)
  {
    SplitStampedRecord(dt, msg);
    JoinTokensOfSingleSpaced(msg);
  }

  /** Joining words with single spaces gives a single-spaced message. */
  lemma {:induction false} JoinIsSingleSpaced(ws: seq<string>)
    requires forall k :: 0 <= k < |ws| ==> IsWord(ws[k])
    ensures SingleSpaced(Join(ws))
    ensures ws != [] ==> Join(ws) != [] && !IsSpace(Join(ws)[0])
  {
    if |ws| > 1 {
      var w, j := ws[0], Join(ws[1..]);
      JoinIsSingleSpaced(ws[1..]);
      var m := w + " " + j;
      assert Join(ws) == m;
      assert !IsSpace(j[|j| - 1]);
      forall k | 0 <= k < |m| && IsSpace(m[k])
        ensures m[k] == ' ' && 0 < k < |m| - 1
      {
        if k > |w| { assert m[k] == j[k - |w| - 1]; }
      }
      forall k | 0 <= k < |m| - 1 && IsSpace(m[k])
        ensures !IsSpace(m[k + 1])
      {
        if k > |w| { assert m[k] == j[k - |w| - 1] && m[k + 1] == j[k - |w|]; }
        else { assert k == |w| && m[k + 1] == j[0]; }
      }
    }
  }

  /** The message `get_line_split` returns is single-spaced. */
  lemma SplitMessageIsSingleSpaced(r: Read)
    requires GetLineSplit(r).Split?
    ensures SingleSpaced(GetLineSplit(r).msg)
  {
    JoinIsSingleSpaced(Tokens(r.text)[1..]);
  }

  /** Rewriting a stamped line as `<formatted date> <message>` (what the
      syslog capture writes) reads back as the same date and message. */
  lemma RewriteReadsBack(text: string)
    requires GetLineSplit(Line(text)).Split?
    ensures var s := GetLineSplit(Line(text));
      GetLineSplit(Line(Format(s.date) + " " + s.msg)) == s
  {
    var s := GetLineSplit(Line(text));
    SplitMessageIsSingleSpaced(Line(text));
    SplitRecordRoundTrip(s.date, s.msg);
  }
}
