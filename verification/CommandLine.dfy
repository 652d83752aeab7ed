/**
 * The shell's in-place tokenizer and its printer, src/apps/sem12/main.c:31-39 and 190-209.
 */
module CommandLine {

  const MAX_ARGS := 64
  const NUL := '\0'

  // ----- the words of a line

  predicate EndsLine(c: char) {
    c == NUL || c == '\n'
  }

  /** The first newline or NUL from i on, or the end. */
  function LineEnd(s: seq<char>, i: nat): (n: nat)
    requires i <= |s|
    ensures i <= n <= |s| && (n < |s| ==> EndsLine(s[n]))
    ensures forall k :: i <= k < n ==> !EndsLine(s[k])
    decreases |s| - i
  {
    if i == |s| || EndsLine(s[i]) then i else LineEnd(s, i + 1)
  }

  /** The text before the first newline or NUL. */
  function Line(s: seq<char>): seq<char> {
    s[..LineEnd(s, 0)]
  }

  /** The half-open interval of a piece. */
  datatype Span = Span(start: nat, end: nat)

  /** The pieces that ended so far, and where the current one begins. */
  datatype Scan = Scan(found: seq<Span>, j: nat)

  /** A piece ends at a space, and counts unless it is empty. */
  function ScanTo(line: seq<char>, i: nat): (r: Scan)
    requires i <= |line|
    ensures r.j <= i
  {
    if i == 0 then Scan([], 0)
    else
      var before := ScanTo(line, i - 1);
      if line[i - 1] != ' ' then before
      else Scan(before.found + if before.j < i - 1 then [Span(before.j, i - 1)] else [], i)
  }

  function Spans(line: seq<char>): seq<Span> {
    var scan := ScanTo(line, |line|);
    scan.found + if scan.j < |line| then [Span(scan.j, |line|)] else []
  }

  /** A non-empty stretch without spaces that cannot be extended to either side. */
  predicate IsMaximalPiece(line: seq<char>, a: nat, b: nat) {
    && a < b <= |line|
    && (forall k :: a <= k < b ==> line[k] != ' ')
    && (a == 0 || line[a - 1] == ' ')
    && (b == |line| || line[b] == ' ')
  }

  /** The current piece begins at the start or after a space, and has no space yet. */
  lemma {:induction false} ScanOpen(line: seq<char>, i: nat)
    requires i <= |line|
    ensures ScanTo(line, i).j == 0 || line[ScanTo(line, i).j - 1] == ' '
    ensures forall p :: ScanTo(line, i).j <= p < i ==> line[p] != ' '
  {
    if i > 0 {
      ScanOpen(line, i - 1);
    }
  }

  lemma {:induction false} ScanSound(line: seq<char>, i: nat, k: nat)
    requires i <= |line| && k < |ScanTo(line, i).found|
    ensures IsMaximalPiece(line, ScanTo(line, i).found[k].start, ScanTo(line, i).found[k].end)
    ensures ScanTo(line, i).found[k].end < ScanTo(line, i).j
    ensures k > 0 ==> ScanTo(line, i).found[k - 1].end < ScanTo(line, i).found[k].start
  {
    var before := ScanTo(line, i - 1);
    if k < |before.found| {
      ScanSound(line, i - 1, k);
    } else {
      ScanOpen(line, i - 1);
      if k > 0 {
        ScanSound(line, i - 1, k - 1);
      }
    }
  }

  /** At the end of a maximal piece, it is the current one. */
  lemma PieceIsOpen(line: seq<char>, a: nat, b: nat)
    requires IsMaximalPiece(line, a, b)
    ensures ScanTo(line, b).j == a
  {
    ScanOpen(line, b);
  }

  lemma {:induction false} ScanComplete(line: seq<char>, i: nat, a: nat, b: nat)
    requires b < i <= |line| && IsMaximalPiece(line, a, b)
    ensures Span(a, b) in ScanTo(line, i).found
  {
    if b < i - 1 {
      ScanComplete(line, i - 1, a, b);
    } else {
      PieceIsOpen(line, a, b);
    }
  }

  predicate SpanOk(line: seq<char>, k: nat)
    requires k < |Spans(line)|
  {
    && IsMaximalPiece(line, Spans(line)[k].start, Spans(line)[k].end)
    && (k > 0 ==> Spans(line)[k - 1].end < Spans(line)[k].start)
  }

  lemma SpanIsMaximal(line: seq<char>, k: nat)
    requires k < |Spans(line)|
    ensures SpanOk(line, k)
  {
    var found := ScanTo(line, |line|).found;
    if k < |found| {
      ScanSound(line, |line|, k);
    } else {
      ScanOpen(line, |line|);
      if k > 0 {
        ScanSound(line, |line|, k - 1);
      }
    }
  }

  /** The spans are exactly the maximal pieces, each once, from left to right. */
  lemma SpansAreMaximalPieces(line: seq<char>)
    ensures forall a: nat, b: nat :: Span(a, b) in Spans(line) <==> IsMaximalPiece(line, a, b)
    ensures forall k :: 0 < k < |Spans(line)| ==> Spans(line)[k - 1].end < Spans(line)[k].start
  {
    forall k | 0 <= k < |Spans(line)| ensures SpanOk(line, k) {
      SpanIsMaximal(line, k);
    }
    forall a: nat, b: nat | IsMaximalPiece(line, a, b) ensures Span(a, b) in Spans(line) {
      if b < |line| {
        ScanComplete(line, |line|, a, b);
      } else {
        PieceIsOpen(line, a, b);
      }
    }
    forall a: nat, b: nat | Span(a, b) in Spans(line) ensures IsMaximalPiece(line, a, b) {
      var k :| 0 <= k < |Spans(line)| && Spans(line)[k] == Span(a, b);
      assert SpanOk(line, k);
    }
    forall k | 0 < k < |Spans(line)| ensures Spans(line)[k - 1].end < Spans(line)[k].start {
      assert SpanOk(line, k);
    }
  }

  /** The text of the k-th word. */
  function Word(line: seq<char>, k: nat): seq<char>
    requires k < |Spans(line)|
  {
    SpanIsMaximal(line, k);
    line[Spans(line)[k].start..Spans(line)[k].end]
  }

  function Words(line: seq<char>): seq<seq<char>> {
    seq(|Spans(line)|, k requires 0 <= k < |Spans(line)| => Word(line, k))
  }

  function First64<T>(s: seq<T>): seq<T> {
    if |s| <= MAX_ARGS then s else s[..MAX_ARGS]
  }

  /** What `process_line` hands on: the first 64 words of the line. */
  function Args(s: seq<char>): seq<seq<char>> {
    First64(Words(Line(s)))
  }

  // ----- C strings

  /** The string read from p on, up to the first NUL. */
  function CString(s: seq<char>, p: nat): seq<char>
    decreases |s| - p
  {
    if p >= |s| || s[p] == NUL then [] else [s[p]] + CString(s, p + 1)
  }

  lemma {:induction false} CStringIs(s: seq<char>, a: nat, b: nat)
    requires a <= b < |s| && s[b] == NUL && forall k :: a <= k < b ==> s[k] != NUL
    ensures CString(s, a) == s[a..b]
    decreases b - a
  {
    if a < b {
      CStringIs(s, a + 1, b);
    }
  }

  function CStrings(s: seq<char>, ps: seq<nat>): seq<seq<char>> {
    seq(|ps|, k requires 0 <= k < |ps| => CString(s, ps[k]))
  }

  // ----- process_line

  /** What lies behind the end of the line does not matter. */
  lemma {:induction false} ScanOfPrefix(text: seq<char>, n: nat, i: nat)
    requires i <= n <= |text|
    ensures ScanTo(text[..n], i) == ScanTo(text, i)
  {
    if i > 0 {
      ScanOfPrefix(text, n, i - 1);
    }
  }

  /** The text once the spaces before i and the character at i are overwritten. */
  predicate Overwritten(text: seq<char>, now: seq<char>, i: nat) {
    && i < |text| == |now| && now[i] == NUL
    && forall p :: 0 <= p < |text| && p != i ==> now[p] == if p < i && text[p] == ' ' then NUL else text[p]
  }

  /** The NULs written end a piece that ended before the terminator, and do not damage it. */
  lemma PieceSurvives(text: seq<char>, now: seq<char>, i: nat, line: seq<char>, a: nat, b: nat)
    requires Overwritten(text, now, i) && i <= |line| < |text| && line == text[..|line|]
    requires forall p :: 0 <= p < |line| ==> !EndsLine(line[p])
    requires IsMaximalPiece(line, a, b) && b <= i
    ensures CString(now, a) == line[a..b]
  {
    CStringIs(now, a, b);
  }

  /** The offsets in the buffer: those of the pieces that ended, and of a last open one. */
  predicate Collected(scan: Scan, i: nat, argv: seq<nat>) {
    var open := |scan.found| < MAX_ARGS && scan.j < i;
    && |argv| == |scan.found| + (if open then 1 else 0)
    && (forall k :: 0 <= k < |scan.found| ==> argv[k] == scan.found[k].start)
    && (open ==> argv[|scan.found|] == scan.j)
  }

  lemma {:induction false} ScanGrows(line: seq<char>, i: nat, n: nat)
    requires i <= n <= |line|
    ensures ScanTo(line, i).found <= ScanTo(line, n).found
  {
    if i < n {
      ScanGrows(line, i, n - 1);
    }
  }

  /** Where the loop stops, the first 64 words have been collected. */
  lemma CollectedSpan(line: seq<char>, i: nat, argv: seq<nat>, k: nat)
    requires i <= |line| && |ScanTo(line, i).found| <= MAX_ARGS && Collected(ScanTo(line, i), i, argv)
    requires i == |line| || (|ScanTo(line, i).found| == MAX_ARGS)
    requires k < |argv|
    ensures |argv| <= |Spans(line)| && argv[k] == Spans(line)[k].start && Spans(line)[k].end <= i
    ensures |argv| == |First64(Spans(line))|
  {
    ScanGrows(line, i, |line|);
    if k < |ScanTo(line, i).found| {
      ScanSound(line, i, k);
    }
  }

  lemma Finish(text: seq<char>, now: seq<char>, i: nat, argv: seq<nat>)
    requires i <= LineEnd(text, 0) < |text| && Overwritten(text, now, i)
    requires i == LineEnd(text, 0) || |ScanTo(text, i).found| == MAX_ARGS
    requires |ScanTo(text, i).found| <= MAX_ARGS && Collected(ScanTo(text, i), i, argv)
    ensures CStrings(now, argv) == Args(text)
  {
    var line := Line(text);
    ScanOfPrefix(text, |line|, i);
    var strings, args := CStrings(now, argv), Args(text);
    assert |strings| == |args| by {
      if argv != [] {
        CollectedSpan(line, i, argv, 0);
      } else {
        assert Spans(line) == [];
      }
    }
    forall k | 0 <= k < |argv| ensures strings[k] == args[k] {
      CollectedSpan(line, i, argv, k);
      SpanIsMaximal(line, k);
      PieceSurvives(text, now, i, line, Spans(line)[k].start, Spans(line)[k].end);
    }
    assert strings == args;
  }

  /** Only NULs are written, and nothing behind the line. */
  predicate OnlyLineWritten(text: seq<char>, now: seq<char>) {
    && |now| == |text|
    && forall p :: 0 <= p < |text| ==> now[p] == text[p] || (now[p] == NUL && p <= LineEnd(text, 0))
  }

  /**
   * Splits the NUL-terminated text in `s` in place.  The C strings behind the returned offsets
   * are the first 64 words.
   */
  method ProcessLine(s: array<char>) returns (argv: seq<nat>)
    requires NUL in s[..]
    modifies s
    ensures CStrings(s[..], argv) == Args(old(s[..]))
    ensures |argv| == if |Spans(Line(old(s[..])))| <= 64 then |Spans(Line(old(s[..])))| else 64
    ensures OnlyLineWritten(old(s[..]), s[..])
  {
    ghost var text := s[..];
    ghost var length := LineEnd(text, 0);
    var buf := new nat[MAX_ARGS];
    var argc := 0;
    var i, j := 0, 0;
    while s[i] != NUL && s[i] != '\n' && argc < MAX_ARGS
      invariant 0 <= i <= length < |text|
      invariant j == ScanTo(text, i).j && argc == |ScanTo(text, i).found| <= MAX_ARGS
      invariant argc == MAX_ARGS ==> j == i
      invariant forall p :: 0 <= p < s.Length ==> s[p] == if p < i && text[p] == ' ' then NUL else text[p]
      invariant forall k :: 0 <= k < argc ==> buf[k] == ScanTo(text, i).found[k].start
      decreases length - i
    {
      if s[i] == ' ' {
        s[i] := NUL;
        if j < i {
          buf[argc] := j;
          argc := argc + 1;
        }
        j := i + 1;
      }
      i := i + 1;
    }
    s[i] := NUL;
    if j < i && argc < MAX_ARGS {
      buf[argc] := j;
      argc := argc + 1;
    }
    argv := buf[..argc];
    Finish(text, s[..], i, argv);
  }

  // ----- joining words

  function Join(ws: seq<seq<char>>): seq<char> {
    if ws == [] then []
    else if |ws| == 1 then ws[0]
    else Join(ws[..|ws| - 1]) + [' '] + ws[|ws| - 1]
  }

  lemma {:induction false} JoinAppend(a: seq<seq<char>>, b: seq<seq<char>>)
    requires a != [] && b != []
    ensures Join(a + b) == Join(a) + [' '] + Join(b)
  {
    var front := b[..|b| - 1];
    if front == [] {
      assert (a + b)[..|a + b| - 1] == a;
    } else {
      assert (a + b)[..|a + b| - 1] == a + front;
      JoinAppend(a, front);
    }
  }

  /** One space between any two neighbours, and nothing else. */
  lemma JoinLaws(w: seq<char>, a: seq<seq<char>>, b: seq<seq<char>>)
    ensures Join([]) == [] && Join([w]) == w
    ensures a != [] && b != [] ==> Join(a + b) == Join(a) + [' '] + Join(b)
  {
    if a != [] && b != [] {
      JoinAppend(a, b);
    }
  }

  /** Something the parser can deliver: not empty, and free of separators. */
  predicate IsToken(w: seq<char>) {
    w != [] && forall k :: 0 <= k < |w| ==> w[k] != ' ' && w[k] != '\n' && w[k] != '\0'
  }

  predicate AreTokens(ws: seq<seq<char>>) {
    forall k :: 0 <= k < |ws| ==> IsToken(ws[k])
  }

  /** No space at either end, and no two in a row. */
  predicate SingleSpaced(text: seq<char>) {
    && (text != [] ==> text[0] != ' ')
    && forall p :: 0 <= p < |text| && text[p] == ' ' ==> p + 1 < |text| && text[p + 1] != ' '
  }

  lemma {:induction false} JoinIsSingleSpaced(ws: seq<seq<char>>)
    requires AreTokens(ws) && ws != []
    ensures SingleSpaced(Join(ws)) && Join(ws) != []
  {
    if |ws| > 1 {
      var first, rest := ws[0], ws[1..];
      JoinIsSingleSpaced(rest);
      JoinAppend([first], rest);
      assert [first] + rest == ws && Join([first]) == first;
    }
  }

  function TextOf(line: seq<char>, span: Span): seq<char> {
    if span.start <= span.end <= |line| then line[span.start..span.end] else []
  }

  function Texts(line: seq<char>, spans: seq<Span>): seq<seq<char>> {
    seq(|spans|, k requires 0 <= k < |spans| => TextOf(line, spans[k]))
  }

  lemma JoinOneMore(line: seq<char>, spans: seq<Span>, j: nat, i: nat)
    requires j <= i <= |line|
    requires line[..j] == if spans == [] then [] else Join(Texts(line, spans)) + [' ']
    ensures Join(Texts(line, spans + [Span(j, i)])) == line[..i]
  {
    var before, all := Texts(line, spans), Texts(line, spans + [Span(j, i)]);
    assert all == before + [line[j..i]];
    assert line[..i] == line[..j] + line[j..i];
    if spans != [] {
      JoinAppend(before, [line[j..i]]);
    }
  }

  /** What precedes the current piece of a single-spaced line is the pieces found, joined. */
  lemma {:induction false} ScanSingleSpaced(line: seq<char>, i: nat)
    requires SingleSpaced(line) && i <= |line|
    ensures i == ScanTo(line, i).j ==> i == 0 || line[i - 1] == ' '
    ensures line[..ScanTo(line, i).j] ==
            if ScanTo(line, i).found == [] then [] else Join(Texts(line, ScanTo(line, i).found)) + [' ']
  {
    if i > 0 {
      ScanSingleSpaced(line, i - 1);
      if line[i - 1] == ' ' {
        var before := ScanTo(line, i - 1);
        JoinOneMore(line, before.found, before.j, i - 1);
        assert line[..i] == line[..i - 1] + [' '];
      }
    }
  }

  lemma JoinOfWords(line: seq<char>)
    requires SingleSpaced(line)
    ensures Join(Words(line)) == line
  {
    if line != [] {
      ScanSingleSpaced(line, |line|);
      var scan := ScanTo(line, |line|);
      JoinOneMore(line, scan.found, scan.j, |line|);
      forall k | 0 <= k < |Spans(line)| ensures Words(line)[k] == Texts(line, Spans(line))[k] {
        SpanIsMaximal(line, k);
      }
      assert Words(line) == Texts(line, Spans(line));
      assert line[..|line|] == line;
    }
  }

  // ----- func_echo

  /** All but the first argument, separated by spaces; nothing at all without a second one. */
  function EchoText(args: seq<seq<char>>): seq<char> {
    if |args| <= 1 then [] else Join(args[1..]) + ['\n']
  }

  /** What has been printed before argument i. */
  function Printed(args: seq<seq<char>>, i: nat): seq<char>
    requires i <= |args|
  {
    if i <= 1 then []
    else Printed(args, i - 1) + args[i - 1] + [if i == |args| then '\n' else ' ']
  }

  lemma {:induction false} PrintedSome(args: seq<seq<char>>, i: nat)
    requires 2 <= i <= |args|
    ensures Printed(args, i) == Join(args[1..i]) + [if i == |args| then '\n' else ' ']
  {
    if i > 2 {
      PrintedSome(args, i - 1);
      assert args[1..i][..i - 2] == args[1..i - 1];
    }
  }

  lemma PrintedAll(args: seq<seq<char>>)
    requires args != []
    ensures Printed(args, |args|) == EchoText(args)
  {
    if |args| > 1 {
      PrintedSome(args, |args|);
      assert args[1..|args|] == args[1..];
    }
  }

  /** Where argument k begins in what is printed: after the others and one character behind each. */
  function Offset(args: seq<seq<char>>, k: nat): nat
    requires k <= |args|
  {
    if k <= 1 then 0 else Offset(args, k - 1) + |args[k - 1]| + 1
  }

  /** Argument k stands at its place, followed by a space, or by a newline if it is the last. */
  predicate PlacedAt(args: seq<seq<char>>, out: seq<char>, k: nat)
    requires k < |args|
  {
    var p, q := Offset(args, k), Offset(args, k) + |args[k]|;
    q < |out| && out[p..q] == args[k] && out[q] == if k + 1 == |args| then '\n' else ' '
  }

  /** All arguments but the first in order, and nothing else. */
  predicate IsLayout(args: seq<seq<char>>, out: seq<char>) {
    |out| == Offset(args, |args|) && forall k :: 1 <= k < |args| ==> PlacedAt(args, out, k)
  }

  lemma {:induction false} PrintedPlaces(args: seq<seq<char>>, i: nat, k: nat)
    requires 1 <= k < i <= |args|
    ensures |Printed(args, i)| == Offset(args, i) && PlacedAt(args, Printed(args, i), k)
  {
    if k < i - 1 {
      PrintedPlaces(args, i - 1, k);
    } else if k > 1 {
      PrintedPlaces(args, i - 1, k - 1);
    }
  }

  /** What echo prints is laid out like that, for any arguments. */
  lemma EchoLayout(args: seq<seq<char>>)
    ensures IsLayout(args, EchoText(args))
  {
    if args != [] {
      PrintedAll(args);
    }
    if |args| > 1 {
      PrintedPlaces(args, |args|, 1);
    }
    forall k | 1 <= k < |args| ensures PlacedAt(args, EchoText(args), k) {
      PrintedPlaces(args, |args|, k);
    }
  }

  /** What `%s` prints: the characters from p to the first NUL. */
  method ReadString(s: array<char>, p: nat) returns (word: seq<char>)
    ensures word == CString(s[..], p)
  {
    word := [];
    var q := p;
    while q < s.Length && s[q] != NUL
      invariant p <= q
      invariant CString(s[..], p) == word + CString(s[..], q)
      decreases s.Length - q
    {
      word := word + [s[q]];
      q := q + 1;
    }
  }

  /** `func_echo` on the argument vector left by `process_line`: what it prints. */
  method FuncEcho(s: array<char>, argv: seq<nat>) returns (out: seq<char>)
    ensures out == EchoText(CStrings(s[..], argv)) && IsLayout(CStrings(s[..], argv), out)
  {
    ghost var args := CStrings(s[..], argv);
    out := [];
    var i := 1;
    while i < |argv|
      invariant 1 <= i && (i <= |argv| || i == 1)
      invariant i <= |argv| ==> out == Printed(args, i)
      invariant i > |argv| ==> out == []
    {
      var word := ReadString(s, argv[i]);
      if i + 1 == |argv| {
        out := out + word + ['\n'];
      } else {
        out := out + word + [' '];
      }
      i := i + 1;
    }
    if |argv| > 0 {
      PrintedAll(args);
    }
    EchoLayout(args);
  }

  // ----- parsing undoes printing

  lemma ArgsAreTokens(s: seq<char>)
    ensures AreTokens(Args(s)) && |Args(s)| <= 64
  {
    var line := Line(s);
    forall k | 0 <= k < |Args(s)| ensures IsToken(Args(s)[k]) {
      SpanIsMaximal(line, k);
      var a, w := Spans(line)[k].start, Word(line, k);
      forall p | 0 <= p < |w| ensures w[p] != ' ' && w[p] != '\n' && w[p] != '\0' {
        assert w[p] == line[a + p] == s[a + p];
      }
    }
  }

  lemma {:induction false} ScanNoSpace(line: seq<char>, i: nat, n: nat)
    requires i <= n <= |line| && forall p :: i <= p < n ==> line[p] != ' '
    ensures ScanTo(line, n) == ScanTo(line, i)
  {
    if i < n {
      ScanNoSpace(line, i, n - 1);
    }
  }

  predicate TextAt(line: seq<char>, span: Span, w: seq<char>) {
    span.start <= span.end <= |line| && line[span.start..span.end] == w
  }

  /** After n characters all tokens but the last have been found, and the last one is open. */
  predicate Parsed(line: seq<char>, n: nat, ws: seq<seq<char>>) {
    && ws != [] && |ws[|ws| - 1]| <= n <= |line|
    && TextAt(line, Span(ScanTo(line, n).j, n), ws[|ws| - 1])
    && |ScanTo(line, n).found| == |ws| - 1
    && forall k :: 0 <= k < |ws| - 1 ==> TextAt(line, ScanTo(line, n).found[k], ws[k])
  }

  lemma ParsedOneMore(line: seq<char>, n: nat, ws: seq<seq<char>>, w: seq<char>)
    requires Parsed(line, n, ws) && AreTokens(ws) && IsToken(w)
    requires n + 1 + |w| <= |line| && line[n] == ' ' && line[n + 1..n + 1 + |w|] == w
    ensures Parsed(line, n + 1 + |w|, ws + [w])
  {
    assert forall p :: n + 1 <= p < n + 1 + |w| ==> line[p] == w[p - n - 1];
    ScanNoSpace(line, n + 1, n + 1 + |w|);
    assert ScanTo(line, n + 1) == Scan(ScanTo(line, n).found + [Span(ScanTo(line, n).j, n)], n + 1);
  }

  lemma {:induction false} ScanJoin(line: seq<char>, ws: seq<seq<char>>)
    requires ws != [] && AreTokens(ws) && Join(ws) <= line
    ensures Parsed(line, |Join(ws)|, ws)
  {
    var n, last := |Join(ws)|, ws[|ws| - 1];
    if |ws| > 1 {
      var front := ws[..|ws| - 1];
      var m := |Join(front)|;
      assert Join(front) <= Join(ws) <= line;
      ScanJoin(line, front);
      assert line[m] == Join(ws)[m] == ' ' && line[m + 1..n] == Join(ws)[m + 1..n] == last;
      ParsedOneMore(line, m, front, last);
      assert front + [last] == ws;
    } else {
      ScanNoSpace(line, 0, n);
    }
  }

  lemma WordsOfJoin(ws: seq<seq<char>>)
    requires AreTokens(ws)
    ensures Words(Join(ws)) == ws
  {
    if ws != [] {
      ScanJoin(Join(ws), ws);
    }
  }

  /** Among all texts, the joined tokens are the single-spaced one with these words. */
  lemma JoinIsNormalForm(ws: seq<seq<char>>, text: seq<char>)
    requires AreTokens(ws)
    ensures text == Join(ws) <==> SingleSpaced(text) && Words(text) == ws
  {
    WordsOfJoin(ws);
    if ws != [] {
      JoinIsSingleSpaced(ws);
    }
    if SingleSpaced(text) {
      JoinOfWords(text);
    }
  }

  lemma {:induction false} JoinHasNoEnd(ws: seq<seq<char>>)
    requires AreTokens(ws)
    ensures forall p :: 0 <= p < |Join(ws)| ==> !EndsLine(Join(ws)[p])
  {
    if |ws| > 1 {
      JoinHasNoEnd(ws[..|ws| - 1]);
    }
  }

  lemma {:induction false} LineEndIs(s: seq<char>, i: nat, n: nat)
    requires i <= n < |s| && EndsLine(s[n]) && forall p :: i <= p < n ==> !EndsLine(s[p])
    ensures LineEnd(s, i) == n
    decreases n - i
  {
    if i < n {
      LineEndIs(s, i + 1, n);
    }
  }

  /** Tokenizing tokens joined by spaces returns the first 64 of them, whatever ends the line. */
  lemma ParseJoin(ws: seq<seq<char>>, rest: seq<char>)
    requires AreTokens(ws) && rest != [] && (rest[0] == '\n' || rest[0] == '\0')
    ensures Args(Join(ws) + rest) == if |ws| <= 64 then ws else ws[..64]
    ensures Args(Join(ws) + rest) == ws <==> |ws| <= 64
  {
    var s := Join(ws) + rest;
    JoinHasNoEnd(ws);
    LineEndIs(s, 0, |Join(ws)|);
    assert Line(s) == Join(ws);
    WordsOfJoin(ws);
  }

  /** Tokenizing what echo prints returns the arguments it was given, up to the limit on their number. */
  lemma ParseEcho(args: seq<seq<char>>)
    requires AreTokens(args) && args != []
    ensures Args(EchoText(args) + ['\0']) == if |args| <= 65 then args[1..] else args[1..65]
  {
    if |args| == 1 {
      assert EchoText(args) + [NUL] == Join([]) + [NUL];
      ParseJoin([], [NUL]);
    } else {
      assert EchoText(args) + [NUL] == Join(args[1..]) + ['\n', NUL];
      ParseJoin(args[1..], ['\n', NUL]);
    }
  }

  /** A space behind a single word changes nothing. */
  lemma OneWord(w: seq<char>)
    requires IsToken(w)
    ensures Args(w + [' '] + [] + [NUL]) == [w]
  {
    var s := w + [' '] + [] + [NUL];
    LineEndIs(s, 0, |w| + 1);
    var line := Line(s);
    ScanNoSpace(line, 0, |w|);
    assert ScanTo(line, |w| + 1) == Scan([Span(0, |w|)], |w| + 1);
    assert Spans(line) == [Span(0, |w|)];
    assert Word(line, 0) == w;
  }

  /** A line of text with these words, single-spaced; nothing at all without words. */
  predicate IsNormalLine(ws: seq<seq<char>>, out: seq<char>) {
    if ws == [] then out == []
    else out != [] && out[|out| - 1] == '\n' && SingleSpaced(out[..|out| - 1]) && Words(out[..|out| - 1]) == ws
  }

  lemma EchoIsNormalLine(args: seq<seq<char>>)
    requires AreTokens(args) && args != []
    ensures IsNormalLine(args[1..], EchoText(args))
  {
    if |args| > 1 {
      var text := Join(args[1..]);
      assert EchoText(args)[..|EchoText(args)| - 1] == text;
      JoinIsNormalForm(args[1..], text);
    }
  }

  /** The command `echo` on a line: parsed in place, then printed from the same buffer. */
  method Echo(s: array<char>) returns (out: seq<char>)
    requires NUL in s[..]
    modifies s
    ensures out == EchoText(Args(old(s[..])))
    ensures Args(old(s[..])) != [] ==> IsNormalLine(Args(old(s[..]))[1..], out)
    ensures OnlyLineWritten(old(s[..]), s[..])
  {
    ArgsAreTokens(s[..]);
    if Args(s[..]) != [] {
      EchoIsNormalLine(Args(s[..]));
    }
    var argv := ProcessLine(s);
    out := FuncEcho(s, argv);
  }

  /**
   * Echo normalises white space and is idempotent: entering the command again with the text it
   * printed prints the same text, for every line, also one with more than 64 words.
   */
  lemma EchoIsIdempotent(s: seq<char>)
    requires Args(s) != []
    ensures Args(Args(s)[0] + [' '] + EchoText(Args(s)) + [NUL]) == Args(s)
    ensures EchoText(Args(Args(s)[0] + [' '] + EchoText(Args(s)) + [NUL])) == EchoText(Args(s))
  {
    var args := Args(s);
    ArgsAreTokens(s);
    if |args| > 1 {
      JoinAppend(args[..1], args[1..]);
      assert args[..1] + args[1..] == args;
      assert args[0] + [' '] + EchoText(args) + [NUL] == Join(args) + ['\n', NUL];
      ParseJoin(args, ['\n', NUL]);
    } else {
      OneWord(args[0]);
    }
  }
}
