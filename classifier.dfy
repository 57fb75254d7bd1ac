// Line classification and process-row field extraction of the top-log analyser.
//
// The two line patterns (snapshot header, process-table header) and Ruby's
// String#to_f are taken as given functions: the model fixes the ORDER in which
// the patterns are tried and everything done with their results, not the
// regular-expression engine. The blank test, String#strip and the split on
// runs of whitespace are modelled character by character.

module LineClassifier {

  datatype Option<T> = None | Some(value: T)

  /** What the snapshot-header pattern captures and the analyser keeps:
      the HH:MM:SS time and the first load average (already converted). */
  datatype HeaderMatch = HeaderMatch(time: string, load1: real)

  /** The parts of the line grammar the model does not re-implement. */
  datatype Recognizers = Recognizers(
    header: string -> Option<HeaderMatch>,  // the `top - HH:MM:SS up ... load average: a, b, c` pattern
    tableHeader: string -> bool,            // the `  PID USER PR ... COMMAND` pattern
    toF: string -> real)                    // String#to_f

  /** The four branches of the dispatcher, in the order they are tried. */
  datatype LineKind = Blank | Header(time: string, load1: real) | TableHeader | Other

  /** Classify one chomped line: blank first, then snapshot header, then
      table header, anything else last. */
  function Classify(rec: Recognizers, line: string): (k: LineKind)
    ensures k.Blank? <==> line == []
    ensures k.Header? <==> line != [] && rec.header(line).Some?
    ensures k.Header? ==> rec.header(line) == Some(HeaderMatch(k.time, k.load1))
    ensures k.TableHeader? <==> line != [] && rec.header(line).None? && rec.tableHeader(line)
  {
    if line == [] then Blank
    else match rec.header(line)
      case Some(h) => Header(h.time, h.load1)
      case None => if rec.tableHeader(line) then TableHeader else Other
  }

  /** The characters of Ruby's `\s`. */
  predicate IsSpace(c: char) {
    c == ' ' || c == '\t' || c == '\n' || c == '\U{B}' || c == '\U{C}' || c == '\r'
  }

  /** The characters String#strip removes: `\s` and NUL. */
  predicate IsStripChar(c: char) {
    IsSpace(c) || c == '\0'
  }

  function TrimLeft(s: string): (r: string)
    ensures |r| <= |s| && r == s[|s| - |r|..]
    ensures forall k :: 0 <= k < |s| - |r| ==> IsStripChar(s[k])
    ensures r == [] || !IsStripChar(r[0])
    decreases |s|
  {
    if s != [] && IsStripChar(s[0]) then TrimLeft(s[1..]) else s
  }

  function TrimRight(s: string): (r: string)
    ensures |r| <= |s| && r == s[..|r|]
    ensures forall k :: |r| <= k < |s| ==> IsStripChar(s[k])
    ensures r == [] || !IsStripChar(r[|r| - 1])
    decreases |s|
  {
    if s != [] && IsStripChar(s[|s| - 1]) then TrimRight(s[..|s| - 1]) else s
  }

  /** String#strip. */
  function Strip(s: string): string {
    TrimRight(TrimLeft(s))
  }

  predicate AllStripChars(s: string) {
    forall k :: 0 <= k < |s| ==> IsStripChar(s[k])
  }

  /** Strip removes exactly the padding around a word whose ends are not padding. */
  lemma StripPadded(lead: string, w: string, trail: string)
    requires AllStripChars(lead) && AllStripChars(trail)
    requires w != [] && !IsStripChar(w[0]) && !IsStripChar(w[|w| - 1])
    ensures Strip(lead + w + trail) == w
  {
    var s := lead + w + trail;
    assert s[|lead|] == w[0];
    assert TrimLeft(s) == w + trail;
    var l := w + trail;
    assert l[|w| - 1] == w[|w| - 1];
    assert TrimRight(l) == w;
  }

  /** Leading whitespace removed (the split ignores it). */
  function SkipSpaces(s: string): (r: string)
    ensures |r| <= |s| && r == s[|s| - |r|..]
    ensures r == [] || !IsSpace(r[0])
    decreases |s|
  {
    if s != [] && IsSpace(s[0]) then SkipSpaces(s[1..]) else s
  }

  /** The longest prefix free of whitespace. */
  function Word(s: string): (w: string)
    ensures |w| <= |s| && w == s[..|w|]
    ensures forall k :: 0 <= k < |w| ==> !IsSpace(w[k])
    ensures |w| < |s| ==> IsSpace(s[|w|])
    decreases |s|
  {
    if s == [] || IsSpace(s[0]) then [] else [s[0]] + Word(s[1..])
  }

  /** A field of a whitespace split: non-empty, no whitespace inside. */
  predicate IsToken(w: string) {
    w != [] && forall k :: 0 <= k < |w| ==> !IsSpace(w[k])
  }

  /** `s.split(/\s+/)` for a string without leading whitespace: the maximal
      runs of non-whitespace characters, in order. */
  function Tokens(s: string): (ws: seq<string>)
    ensures forall i :: 0 <= i < |ws| ==> IsToken(ws[i])
    decreases |s|
  {
    var t := SkipSpaces(s);
    if t == [] then []
    else
      var w := Word(t);
      [w] + Tokens(t[|w|..])
  }

  /** A run of whitespace between two columns. */
  predicate IsGap(sp: string) {
    sp != [] && forall k :: 0 <= k < |sp| ==> IsSpace(sp[k])
  }

  /** One gap between each two neighbouring words. */
  predicate AreGaps(ws: seq<string>, gaps: seq<string>) {
    && |gaps| == (if ws == [] then 0 else |ws| - 1)
    && forall i :: 0 <= i < |gaps| ==> IsGap(gaps[i])
  }

  /** The words with the given gaps between them. */
  function JoinSep(ws: seq<string>, gaps: seq<string>): string
    requires |gaps| == if ws == [] then 0 else |ws| - 1
    decreases |ws|
  {
    if ws == [] then []
    else if |ws| == 1 then ws[0]
    else ws[0] + (gaps[0] + JoinSep(ws[1..], gaps[1..]))
  }

  lemma {:induction false} WordOfPrefix(w: string, rest: string)
    requires forall k :: 0 <= k < |w| ==> !IsSpace(w[k])
    requires rest == [] || IsSpace(rest[0])
    ensures Word(w + rest) == w
    decreases |w|
  {
    if w != [] {
      assert (w + rest)[1..] == w[1..] + rest;
      WordOfPrefix(w[1..], rest);
    }
  }

  lemma {:induction false} JoinSepEnds(ws: seq<string>, gaps: seq<string>)
    requires |ws| >= 1 && forall i :: 0 <= i < |ws| ==> ws[i] != []
    requires AreGaps(ws, gaps)
    ensures JoinSep(ws, gaps) != [] && JoinSep(ws, gaps)[0] == ws[0][0]
    ensures JoinSep(ws, gaps)[|JoinSep(ws, gaps)| - 1] == ws[|ws| - 1][|ws[|ws| - 1]| - 1]
    decreases |ws|
  {
    if |ws| > 1 {
      assert AreGaps(ws[1..], gaps[1..]) by {
        assert forall i :: 0 <= i < |gaps| - 1 ==> gaps[1..][i] == gaps[i + 1];
      }
      JoinSepEnds(ws[1..], gaps[1..]);
    }
  }

  lemma {:induction false} SkipSpacesOfGap(sp: string, rest: string)
    requires forall k :: 0 <= k < |sp| ==> IsSpace(sp[k])
    ensures SkipSpaces(sp + rest) == SkipSpaces(rest)
    decreases |sp|
  {
    if sp != [] {
      assert (sp + rest)[0] == sp[0];
      assert (sp + rest)[1..] == sp[1..] + rest;
      SkipSpacesOfGap(sp[1..], rest);
      assert SkipSpaces(sp + rest) == SkipSpaces(sp[1..] + rest);
    } else {
      assert sp + rest == rest;
    }
  }

  /** Whitespace in front of the split does not change it. */
  lemma TokensAfterSpaces(sp: string, rest: string)
    requires forall k :: 0 <= k < |sp| ==> IsSpace(sp[k])
    ensures Tokens(sp + rest) == Tokens(rest)
  {
    SkipSpacesOfGap(sp, rest);
  }

  /** A word followed by whitespace or nothing is the first field. */
  lemma TokensOfWord(w: string, rest: string)
    requires IsToken(w)
    requires rest == [] || IsSpace(rest[0])
    ensures Tokens(w + rest) == [w] + Tokens(rest)
  {
    var s := w + rest;
    assert s[0] == w[0];
    assert SkipSpaces(s) == s;
    WordOfPrefix(w, rest);
    assert s[|w|..] == rest;
  }

  /** Splitting undoes joining: whatever runs of whitespace separate the
      words, the split recovers every word, in order. */
  lemma {:induction false} TokensOfJoin(ws: seq<string>, gaps: seq<string>)
    requires forall i :: 0 <= i < |ws| ==> IsToken(ws[i])
    requires AreGaps(ws, gaps)
    ensures Tokens(JoinSep(ws, gaps)) == ws
    decreases |ws|
  {
    if |ws| == 1 {
      TokensOfWord(ws[0], []);
      assert ws[0] + [] == ws[0];
    } else if |ws| > 1 {
      TailIsJoinable(ws, gaps);
      TokensOfJoin(ws[1..], gaps[1..]);
      TokensOfJoinCons(ws, gaps);
    }
  }

  /** Dropping the first word and the first gap keeps words and gaps apart. */
  lemma TailIsJoinable(ws: seq<string>, gaps: seq<string>)
    requires |ws| > 1 && AreGaps(ws, gaps)
    requires forall i :: 0 <= i < |ws| ==> IsToken(ws[i])
    ensures AreGaps(ws[1..], gaps[1..])
    ensures forall i :: 0 <= i < |ws[1..]| ==> IsToken(ws[1..][i])
  {
    assert forall i :: 0 <= i < |gaps| - 1 ==> gaps[1..][i] == gaps[i + 1];
    assert forall i :: 0 <= i < |ws| - 1 ==> ws[1..][i] == ws[i + 1];
  }

  lemma TokensOfJoinCons(ws: seq<string>, gaps: seq<string>)
    requires |ws| > 1 && IsToken(ws[0]) && AreGaps(ws, gaps)
    requires Tokens(JoinSep(ws[1..], gaps[1..])) == ws[1..]
    ensures Tokens(JoinSep(ws, gaps)) == ws
  {
    var rest := JoinSep(ws[1..], gaps[1..]);
    assert JoinSep(ws, gaps) == ws[0] + (gaps[0] + rest);
    TokensOfJoinStep(ws[0], gaps[0], rest);
    assert ws == [ws[0]] + ws[1..];
  }

  /** A word, a gap, then the rest: the word is the first field. */
  lemma TokensOfJoinStep(w: string, gap: string, rest: string)
    requires IsToken(w) && IsGap(gap)
    ensures Tokens(w + (gap + rest)) == [w] + Tokens(rest)
  {
    assert (gap + rest)[0] == gap[0];
    TokensOfWord(w, gap + rest);
    TokensAfterSpaces(gap, rest);
  }

  /** The three columns the analyser consumes from a process-table row. */
  datatype RowFields = RowFields(cmd: string, cpu: real, mem: real)

  /** `line.strip.split(/\s+/, 13)` followed by `cmd.strip`, `cpu` and `mem`:
      the 9th, 10th and 12th whitespace-separated columns. Fewer than 12
      columns leave `cmd` nil, and `cmd.strip` fails: that is `None`. */
  function ParseRow(rec: Recognizers, line: string): Option<RowFields> {
    var cols := Tokens(Strip(line));
    if |cols| < 12 then None
    else Some(RowFields(Strip(cols[11]), rec.toF(cols[8]), rec.toF(cols[9])))
  }

  /** A column of a well-formed row: no whitespace and no NUL in it. */
  predicate IsField(w: string) {
    w != [] && forall k :: 0 <= k < |w| ==> !IsStripChar(w[k])
  }

  /** Only padding: `strip` leaves nothing. */
  lemma StripBlank(s: string)
    requires AllStripChars(s)
    ensures Strip(s) == []
  {
  }

  /** Stripping and splitting a padded row gives back its columns. */
  lemma ColumnsOfRow(lead: string, cols: seq<string>, gaps: seq<string>, trail: string)
    requires AllStripChars(lead) && AllStripChars(trail)
    requires |cols| >= 1 && forall i :: 0 <= i < |cols| ==> IsField(cols[i])
    requires AreGaps(cols, gaps)
    ensures Tokens(Strip(lead + JoinSep(cols, gaps) + trail)) == cols
  {
    JoinSepEnds(cols, gaps);
    StripPadded(lead, JoinSep(cols, gaps), trail);
    TokensOfJoin(cols, gaps);
  }

  /** A row of at least 12 columns, with any whitespace before, between and
      after them (and NUL at either end), yields its 12th column as the
      command and the 9th and 10th as CPU and memory; columns after the 12th
      are discarded. */
  lemma ParseRowOfColumns(rec: Recognizers, lead: string, cols: seq<string>, gaps: seq<string>, trail: string)
    requires AllStripChars(lead) && AllStripChars(trail)
    requires |cols| >= 12 && forall i :: 0 <= i < |cols| ==> IsField(cols[i])
    requires AreGaps(cols, gaps)
    ensures ParseRow(rec, lead + JoinSep(cols, gaps) + trail)
         == Some(RowFields(cols[11], rec.toF(cols[8]), rec.toF(cols[9])))
  {
    ColumnsOfRow(lead, cols, gaps, trail);
    StripPadded([], cols[11], []);
    assert [] + cols[11] + [] == cols[11];
  }

  /** A line of only whitespace or NUL has no columns: the failing case. */
  lemma ParseRowBlank(rec: Recognizers, lead: string, trail: string)
    requires AllStripChars(lead) && AllStripChars(trail)
    ensures ParseRow(rec, lead + trail).None?
  {
    assert AllStripChars(lead + trail) by {
      forall k | 0 <= k < |lead + trail| ensures IsStripChar((lead + trail)[k]) {
        if k >= |lead| { assert (lead + trail)[k] == trail[k - |lead|]; }
      }
    }
    StripBlank(lead + trail);
  }

  /** A row of fewer than 12 columns, including a line of only whitespace,
      is the failing case. */
  lemma ParseRowShort(rec: Recognizers, lead: string, cols: seq<string>, gaps: seq<string>, trail: string)
    requires AllStripChars(lead) && AllStripChars(trail)
    requires |cols| < 12 && forall i :: 0 <= i < |cols| ==> IsField(cols[i])
    requires AreGaps(cols, gaps)
    ensures ParseRow(rec, lead + JoinSep(cols, gaps) + trail).None?
  {
    if cols == [] {
      assert lead + JoinSep(cols, gaps) + trail == lead + trail;
      ParseRowBlank(rec, lead, trail);
    } else {
      ColumnsOfRow(lead, cols, gaps, trail);
    }
  }
}
