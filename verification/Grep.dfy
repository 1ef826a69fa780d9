/** The user program grep: a search through every file of the directory, line by line. */
module Grep {
  // It reads into a 1024-byte buffer that it refills and shifts (ece391grep.c, ece391support.c).

  import opened Wrappers
  import opened Text
  import opened FileSystem
  import opened Descriptors

  const BUFSIZE := 1024
  const NEWLINES: set<char> := {'\n'}

  // ---------- what is to be found ----------

  ghost predicate Contains(line: seq<char>, s: seq<char>) {
    exists i | 0 <= i <= |line| :: s <= line[i..]
  }

  /** The lines that contain the pattern, each once and in order. */
  ghost function Containing(s: seq<char>, lines: seq<seq<char>>): seq<seq<char>> {
    if lines == [] then []
    else if Contains(lines[0], s) then [lines[0]] + Containing(s, lines[1..])
    else Containing(s, lines[1..])
  }

  /** The reference: the lines of the file that contain the pattern. */
  ghost function Naive(s: seq<char>, file: seq<char>): seq<seq<char>> {
    Containing(s, Split(file, NEWLINES))
  }

  ghost predicate Absent(s: seq<char>, file: seq<char>) {
    forall l | l in Split(file, NEWLINES) :: !Contains(l, s)
  }

  // ---------- what is found ----------

  /**
   The first character of the pattern is compared as a signed one with bytes of the line: the NUL of an empty
   pattern is in no line, and a byte from 128 on, being negative, is equal to none.
   */
  predicate Searchable(s: seq<char>) {
    s != [] && CharValue(s[0]) >= 0
  }

  ghost predicate Hit(s: seq<char>, line: seq<char>) {
    Searchable(s) && Contains(line, s)
  }

  ghost function Matching(s: seq<char>, lines: seq<seq<char>>): seq<seq<char>> {
    if lines == [] then []
    else if Hit(s, lines[0]) then [lines[0]] + Matching(s, lines[1..])
    else Matching(s, lines[1..])
  }

  /** How the lines found in a file are printed. */
  function Report(fname: seq<char>, lines: seq<seq<char>>): seq<char> {
    if lines == [] then [] else fname + ":" + lines[0] + "\n" + Report(fname, lines[1..])
  }

  /** The lines of the file that would be found if each were taken whole. */
  ghost function Whole(s: seq<char>, file: seq<char>): seq<seq<char>> {
    Matching(s, Split(file, NEWLINES))
  }

  /** The lines of a file, cut where they do not fit into the buffer. */
  function Cut(file: seq<char>): seq<seq<char>> {
    Wrap(file, NEWLINES, BUFSIZE)
  }

  /**
   What grep takes for lines. `trap` says that the unused last byte of the buffer happens to hold a
   newline: then the first line that runs over the end of a full buffer is cut there.
   */
  function PiecesOf(file: seq<char>, trap: bool): seq<seq<char>> {
    if !trap || |file| < BUFSIZE then Cut(file)
    else Cut(file[..BUFSIZE]) + PiecesOf(file[BUFSIZE..], file[BUFSIZE - 1] == '\n')
  }

  ghost function Found(s: seq<char>, file: seq<char>, trap: bool): seq<seq<char>> {
    Matching(s, PiecesOf(file, trap))
  }

  // ---------- lists of lines ----------

  lemma {:induction false} MatchingAppend(s: seq<char>, a: seq<seq<char>>, b: seq<seq<char>>)
    ensures Matching(s, a + b) == Matching(s, a) + Matching(s, b)
  {
    if a == [] {
      assert a + b == b;
    } else {
      MatchingAppend(s, a[1..], b);
      assert (a + b)[1..] == a[1..] + b;
      Regroup([a[0]], Matching(s, a[1..]), Matching(s, b));
    }
  }

  lemma {:induction false} ReportAppend(fname: seq<char>, a: seq<seq<char>>, b: seq<seq<char>>)
    ensures Report(fname, a + b) == Report(fname, a) + Report(fname, b)
  {
    if a == [] {
      assert a + b == b;
    } else {
      ReportAppend(fname, a[1..], b);
      assert (a + b)[1..] == a[1..] + b;
      Regroup(fname + ":" + a[0] + "\n", Report(fname, a[1..]), Report(fname, b));
    }
  }

  /** The lines of a text followed by another: the line in the middle belongs to both. */
  function Glue(x: seq<seq<char>>, y: seq<seq<char>>): (lines: seq<seq<char>>)
    requires |x| > 0 && |y| > 0
    ensures |lines| > 0
  {
    x[..|x| - 1] + [x[|x| - 1] + y[0]] + y[1..]
  }

  lemma GlueBehind(x: seq<seq<char>>, y: seq<seq<char>>, c: char)
    requires |x| > 0 && |y| > 0
    ensures Glue([[]] + x, y) == [[]] + Glue(x, y)
    ensures Glue([[c] + x[0]] + x[1..], y) == [[c] + Glue(x, y)[0]] + Glue(x, y)[1..]
  {
    if |x| == 1 {
      assert [c] + (x[0] + y[0]) == [c] + x[0] + y[0];
    }
  }

  lemma {:induction false} SplitAppend(a: seq<char>, b: seq<char>)
    ensures Split(a + b, NEWLINES) == Glue(Split(a, NEWLINES), Split(b, NEWLINES))
  {
    if a == [] {
      assert a + b == b && [] + Split(b, NEWLINES)[0] == Split(b, NEWLINES)[0];
    } else {
      SplitAppend(a[1..], b);
      assert (a + b)[1..] == a[1..] + b;
      GlueBehind(Split(a[1..], NEWLINES), Split(b, NEWLINES), a[0]);
    }
  }

  /** A line and the breaks around it fit into the text. */
  lemma {:induction false} LineLengths(a: seq<char>)
    ensures var x := Split(a, NEWLINES);
            |x| - 1 <= |a|
            && forall i | 0 <= i < |x| :: |x[i]| + |x| - 1 <= |a| && forall c | c in x[i] :: c in a && c !in NEWLINES
    ensures |Split(a, NEWLINES)| == 1 ==> Split(a, NEWLINES) == [a]
  {
    if a == [] {
    } else {
      LineLengths(a[1..]);
      assert a == [a[0]] + a[1..];
    }
  }

  lemma {:induction false} ShortLines(x: seq<seq<char>>)
    requires forall i | 0 <= i < |x| :: |x[i]| < BUFSIZE
    ensures Pieces(x, BUFSIZE) == x
  {
    if x == [] {
    } else {
      ShortLines(x[1..]);
      assert Chunk(x[0], BUFSIZE) == [x[0]];
    }
  }

  lemma NoBreakInside(a: seq<char>, i: nat)
    requires i < |Split(a, NEWLINES)|
    ensures forall c | c in Split(a, NEWLINES)[i] :: c !in NEWLINES
  {
    LineLengths(a);
  }

  /** The lines of a longer text begin with the full lines of a shorter one. */
  lemma SplitBehind(a: seq<char>, b: seq<char>)
    ensures var x := Split(a, NEWLINES);
            Split(a + b, NEWLINES) == x[..|x| - 1] + Split(x[|x| - 1] + b, NEWLINES)
  {
    var x, y := Split(a, NEWLINES), Split(b, NEWLINES);
    SplitAppend(a, b);
    NoBreakInside(a, |x| - 1);
    SplitPrefix(x[|x| - 1], b, NEWLINES);
    Regroup(x[..|x| - 1], [x[|x| - 1] + y[0]], y[1..]);
  }

  /** Full lines at the beginning of a buffer are full lines of the file. */
  lemma CutLines(a: seq<char>, b: seq<char>)
    requires |a| <= BUFSIZE && |Split(a, NEWLINES)| > 1
    ensures var x := Split(a, NEWLINES);
            Cut(a + b) == x[..|x| - 1] + Cut(x[|x| - 1] + b)
  {
    var x := Split(a, NEWLINES);
    var full, last := x[..|x| - 1], x[|x| - 1];
    SplitBehind(a, b);
    LineLengths(a);
    ShortLines(full);
    PiecesAppend(full, Split(last + b, NEWLINES), BUFSIZE);
  }

  lemma NoBreak(line: seq<char>)
    requires '\n' !in line
    ensures Split(line, NEWLINES) == [line]
  {
    SplitPrefix(line, [], NEWLINES);
    assert line + [] == line;
  }

  lemma EmptyNeverHits(s: seq<char>)
    ensures !Hit(s, []) && Matching(s, [[]]) == []
  {
    var x: seq<seq<char>> := [[]];
    assert x[1..] == [];
  }

  /** A text of at most one buffer, cut: its lines, but for an empty piece. */
  lemma CutBuffer(s: seq<char>, a: seq<char>)
    requires |a| <= BUFSIZE
    ensures Matching(s, Cut(a)) == Matching(s, Split(a, NEWLINES))
  {
    LineLengths(a);
    var x := Split(a, NEWLINES);
    if |x| == 1 && |a| == BUFSIZE {
      assert x[0] == a;
      WrapFull(a, [], NEWLINES, BUFSIZE);
      assert a + [] == a;
      EmptyCut();
      EmptyNeverHits(s);
      MatchingAppend(s, [a], [[]]);
      assert [a] + [] == [a];
    } else {
      ShortLines(x);
    }
  }

  lemma EmptyCut()
    ensures Cut([]) == [[]]
  {
    WrapLast([], NEWLINES, BUFSIZE);
  }

  // ---------- one buffer ----------

  /** The last byte of the buffer after a pass over `buffer`: a NUL if a line ran up to it. */
  function TrapAfter(trap: bool, buffer: seq<char>): bool {
    trap && !(|buffer| == BUFSIZE && buffer[BUFSIZE - 1] != '\n')
  }

  /** A pass over a buffer that ends in the middle of a line finds its full lines. */
  lemma KeptPass(s: seq<char>, buffer: seq<char>, rest: seq<char>, trap: bool)
    requires |buffer| <= BUFSIZE && |Split(buffer, NEWLINES)| > 1
    requires if |buffer| == BUFSIZE then !trap else rest == []
    ensures var x := Split(buffer, NEWLINES);
            Found(s, buffer + rest, trap)
              == Matching(s, x[..|x| - 1]) + Found(s, x[|x| - 1] + rest, TrapAfter(trap, buffer))
  {
    var x := Split(buffer, NEWLINES);
    LineLengths(buffer);
    CutLines(buffer, rest);
    MatchingAppend(s, x[..|x| - 1], Cut(x[|x| - 1] + rest));
  }

  /** A pass that takes the whole buffer: at the end of the file, for a long line, or in the trap. */
  lemma WholePass(s: seq<char>, buffer: seq<char>, rest: seq<char>, trap: bool)
    requires |buffer| <= BUFSIZE
    requires if |buffer| == BUFSIZE then trap || |Split(buffer, NEWLINES)| == 1 else rest == []
    ensures Found(s, buffer + rest, trap)
         == Matching(s, Split(buffer, NEWLINES)) + Found(s, rest, TrapAfter(trap, buffer))
  {
    CutBuffer(s, buffer);
    LineLengths(buffer);
    if |buffer| < BUFSIZE {
      assert buffer + rest == buffer;
      EmptyCut();
      EmptyNeverHits(s);
    } else if trap {
      assert (buffer + rest)[..BUFSIZE] == buffer && (buffer + rest)[BUFSIZE..] == rest;
      MatchingAppend(s, Cut(buffer), PiecesOf(rest, buffer[BUFSIZE - 1] == '\n'));
    } else {
      WrapFull(buffer, rest, NEWLINES, BUFSIZE);
      MatchingAppend(s, [buffer], Cut(rest));
    }
  }

  // ---------- how this compares with the reference ----------

  lemma {:induction false} MatchingIs(s: seq<char>, lines: seq<seq<char>>, l: seq<char>)
    ensures l in Matching(s, lines) <==> l in lines && Hit(s, l)
  {
    if lines == [] {
    } else {
      MatchingIs(s, lines[1..], l);
    }
  }

  lemma {:induction false} SmallChunks(line: seq<char>, p: seq<char>)
    requires p in Chunk(line, BUFSIZE)
    ensures |p| <= BUFSIZE
  {
    if |line| < BUFSIZE || p == line[..BUFSIZE] {
    } else {
      SmallChunks(line[BUFSIZE..], p);
    }
  }

  lemma {:induction false} SmallPieces(lines: seq<seq<char>>, p: seq<char>)
    requires p in Pieces(lines, BUFSIZE)
    ensures |p| <= BUFSIZE
  {
    if p in Chunk(lines[0], BUFSIZE) {
      SmallChunks(lines[0], p);
    } else {
      SmallPieces(lines[1..], p);
    }
  }

  lemma PartLacks(line: seq<char>, s: seq<char>, from: nat, to: nat)
    requires from <= to <= |line| && !Contains(line, s)
    ensures !Contains(line[from..to], s)
  {
    forall i | 0 <= i <= to - from
      ensures !(s <= line[from..to][i..])
    {
      assert line[from..to][i..] <= line[from + i..];
    }
  }

  lemma {:induction false} NoHitInChunks(s: seq<char>, line: seq<char>)
    requires !Hit(s, line)
    ensures Matching(s, Chunk(line, BUFSIZE)) == []
  {
    if |line| < BUFSIZE {
      assert Chunk(line, BUFSIZE) == [line];
    } else {
      var rest := line[BUFSIZE..];
      if Searchable(s) {
        PartLacks(line, s, 0, BUFSIZE);
        PartLacks(line, s, BUFSIZE, |line|);
      }
      NoHitInChunks(s, rest);
    }
  }

  /** A line that fits into the buffer is found as it is; a longer one is not found if it does not match. */
  lemma ChunkFound(s: seq<char>, line: seq<char>)
    requires Hit(s, line) ==> |line| <= BUFSIZE
    ensures Matching(s, Chunk(line, BUFSIZE)) == Matching(s, [line])
  {
    if !Hit(s, line) {
      NoHitInChunks(s, line);
    } else if |line| == BUFSIZE {
      assert line[..BUFSIZE] == line && line[BUFSIZE..] == [];
      var empty: seq<char> := [];
      EmptyNeverHits(s);
      assert Chunk(empty, BUFSIZE) == [empty];
      MatchingAppend(s, [line], [empty]);
    }
  }

  lemma {:induction false} LinesFound(s: seq<char>, lines: seq<seq<char>>)
    requires forall l | l in lines :: Hit(s, l) ==> |l| <= BUFSIZE
    ensures Matching(s, Pieces(lines, BUFSIZE)) == Matching(s, lines)
  {
    if lines == [] {
    } else {
      LinesFound(s, lines[1..]);
      ChunkFound(s, lines[0]);
      MatchingAppend(s, Chunk(lines[0], BUFSIZE), Pieces(lines[1..], BUFSIZE));
      MatchingAppend(s, [lines[0]], lines[1..]);
      assert [lines[0]] + lines[1..] == lines;
    }
  }

  /** Every one of these lines that is to be found fits into the buffer. */
  ghost predicate AllFit(s: seq<char>, lines: seq<seq<char>>) {
    forall l | l in lines :: Hit(s, l) ==> |l| <= BUFSIZE
  }

  /** Cut lines give the matching lines exactly if each of these fits. */
  lemma LinesFoundIff(s: seq<char>, lines: seq<seq<char>>)
    ensures Matching(s, Pieces(lines, BUFSIZE)) == Matching(s, lines) <==> AllFit(s, lines)
  {
    if AllFit(s, lines) {
      LinesFound(s, lines);
    } else {
      var l :| l in lines && Hit(s, l) && |l| > BUFSIZE;
      MatchingIs(s, lines, l);
      MatchingIs(s, Pieces(lines, BUFSIZE), l);
      if l in Pieces(lines, BUFSIZE) {
        SmallPieces(lines, l);
      }
    }
  }

  /** Cut lines never give one line more than the lines themselves. */
  lemma NoLineTooMany(s: seq<char>, lines: seq<seq<char>>, l: seq<char>)
    ensures Matching(s, Pieces(lines, BUFSIZE)) != [l] + Matching(s, lines)
  {
    if Matching(s, Pieces(lines, BUFSIZE)) == [l] + Matching(s, lines) {
      forall m | m in lines && Hit(s, m)
        ensures |m| <= BUFSIZE
      {
        MatchingIs(s, lines, m);
        assert m in [l] + Matching(s, lines);
        MatchingIs(s, Pieces(lines, BUFSIZE), m);
        SmallPieces(lines, m);
      }
      LinesFound(s, lines);
      assert false;
    }
  }

  /** Every line to be found fits into the buffer. */
  ghost predicate Fits(s: seq<char>, file: seq<char>) {
    AllFit(s, Split(file, NEWLINES))
  }

  /** A pattern that can be found is found in whole lines wherever it is; any other one is found nowhere. */
  lemma {:induction false} MatchingContaining(s: seq<char>, lines: seq<seq<char>>)
    ensures Matching(s, lines) == if Searchable(s) then Containing(s, lines) else []
    ensures Containing(s, lines) == [] <==> forall l | l in lines :: !Contains(l, s)
  {
    if lines == [] {
    } else {
      MatchingContaining(s, lines[1..]);
      assert forall l :: l in lines <==> l == lines[0] || l in lines[1..];
    }
  }

  /**
   Wherever the reads cut the file, grep finds the lines that contain the pattern exactly if each of them fits
   into the buffer, or there are none if the pattern is empty or begins with a byte from 128 on.
   */
  lemma GrepIsExact(s: seq<char>, file: seq<char>)
    ensures Found(s, file, false) == Naive(s, file) <==> if Searchable(s) then Fits(s, file) else Absent(s, file)
  {
    LinesFoundIff(s, Split(file, NEWLINES));
    MatchingContaining(s, Split(file, NEWLINES));
    MatchingContaining(s, PiecesOf(file, false));
  }

  /** A word that begins with an accented letter is never found. */
  lemma AccentsAreNotFound()
    ensures Found("\U{00E9}t\U{00E9}", "\U{00E9}t\U{00E9}", false) == []
    ensures Naive("\U{00E9}t\U{00E9}", "\U{00E9}t\U{00E9}") == ["\U{00E9}t\U{00E9}"]
  {
    var s := "\U{00E9}t\U{00E9}";
    MatchingContaining(s, PiecesOf(s, false));
    NoBreak(s);
    var lines: seq<seq<char>> := [s];
    assert s <= s[0..] && lines[1..] == [];
  }

  // ---------- with a newline in the unused byte of the buffer ----------

  /**
   The same for a search that begins with a newline in the unused byte. As long as the full buffers end in
   a newline nothing is cut. The first that does not must not cut a line to be found, and from there on
   every line to be found must fit into the buffer.
   */
  ghost predicate TrapFits(s: seq<char>, file: seq<char>)
    decreases |file|
  {
    |file| >= BUFSIZE ==>
      if file[BUFSIZE - 1] == '\n' then TrapFits(s, file[BUFSIZE..])
      else CutFits(s, Split(file[..BUFSIZE], NEWLINES), Split(file[BUFSIZE..], NEWLINES))
  }

  /** The line that is cut between the lines `x` and `y` is not to be found, and those behind it fit. */
  ghost predicate CutFits(s: seq<char>, x: seq<seq<char>>, y: seq<seq<char>>)
    requires |x| > 0 && |y| > 0
  {
    (y[0] == [] || !Hit(s, x[|x| - 1] + y[0])) && AllFit(s, y[1..])
  }

  lemma SameFront<T>(a: seq<T>, b: seq<T>, c: seq<T>)
    ensures a + b == a + c <==> b == c
  {
    assert (a + b)[|a|..] == b && (a + c)[|a|..] == c;
  }

  /** The lines around a cut, searched as they are and in pieces. */
  lemma CutSides(s: seq<char>, x: seq<seq<char>>, y: seq<seq<char>>)
    requires |x| > 0 && |y| > 0
    ensures var full, last := Matching(s, x[..|x| - 1]), x[|x| - 1];
            && Matching(s, Glue(x, y)) == full + (Matching(s, [last + y[0]]) + Matching(s, y[1..]))
            && Matching(s, x) + Matching(s, Pieces(y, BUFSIZE))
            == full + (Matching(s, [last]) + (Matching(s, Chunk(y[0], BUFSIZE)) + Matching(s, Pieces(y[1..], BUFSIZE))))
  {
    var full, last := x[..|x| - 1], x[|x| - 1];
    MatchingAppend(s, full, [last + y[0]] + y[1..]);
    MatchingAppend(s, [last + y[0]], y[1..]);
    assert Glue(x, y) == full + ([last + y[0]] + y[1..]);
    MatchingAppend(s, full, [last]);
    assert x == full + [last];
    MatchingAppend(s, Chunk(y[0], BUFSIZE), Pieces(y[1..], BUFSIZE));
    Regroup(Matching(s, full), Matching(s, [last]), Matching(s, Pieces(y, BUFSIZE)));
  }

  lemma MatchingOne(s: seq<char>, l: seq<char>)
    ensures Matching(s, [l]) == if Hit(s, l) then [l] else []
  {
    assert [l][1..] == [];
  }

  /** What a cut line gives when its second part begins a new buffer. */
  lemma CutLineFound(s: seq<char>, last: seq<char>, first: seq<char>, more: seq<seq<char>>)
    requires last != []
    ensures Matching(s, [last]) + (Matching(s, Chunk(first, BUFSIZE)) + Matching(s, Pieces(more, BUFSIZE)))
         == Matching(s, [last + first]) + Matching(s, more)
       <==> (first == [] || !Hit(s, last + first)) && AllFit(s, more)
  {
    var a, b, c := Matching(s, [last]), Matching(s, Chunk(first, BUFSIZE)), Matching(s, Pieces(more, BUFSIZE));
    MatchingOne(s, last);
    MatchingOne(s, last + first);
    LinesFoundIff(s, more);
    if first == [] {
      EmptyNeverHits(s);
      assert Chunk(first, BUFSIZE) == [[]] && last + first == last && b + c == c;
      SameFront(a, c, Matching(s, more));
    } else if !Hit(s, last + first) {
      PartsLack(s, last, first);
      NoHitInChunks(s, first);
      assert b + c == c && a + c == c;
    } else {
      CutLineDiffers(s, last, first, more);
    }
  }

  lemma PartsLack(s: seq<char>, last: seq<char>, first: seq<char>)
    requires !Hit(s, last + first)
    ensures !Hit(s, last) && !Hit(s, first)
  {
    if Searchable(s) {
      PartLacks(last + first, s, 0, |last|);
      PartLacks(last + first, s, |last|, |last + first|);
      assert (last + first)[0..|last|] == last && (last + first)[|last|..|last + first|] == first;
    }
  }

  /** A line to be found that is cut is missing at its place. */
  lemma CutLineDiffers(s: seq<char>, last: seq<char>, first: seq<char>, more: seq<seq<char>>)
    requires last != [] && first != [] && Hit(s, last + first)
    ensures Matching(s, [last]) + (Matching(s, Chunk(first, BUFSIZE)) + Matching(s, Pieces(more, BUFSIZE)))
         != Matching(s, [last + first]) + Matching(s, more)
  {
    var a, b, c := Matching(s, [last]), Matching(s, Chunk(first, BUFSIZE)), Matching(s, Pieces(more, BUFSIZE));
    MatchingOne(s, last);
    MatchingOne(s, last + first);
    if Hit(s, last) {
      assert (a + (b + c))[0] == last != last + first;
    } else if b != [] {
      MatchingIs(s, Chunk(first, BUFSIZE), b[0]);
      ChunkIsSmaller(first, b[0]);
      assert (a + (b + c))[0] == b[0] != last + first;
    } else {
      assert a + (b + c) == c;
      NoLineTooMany(s, more, last + first);
    }
  }

  lemma {:induction false} ChunkIsSmaller(line: seq<char>, p: seq<char>)
    requires p in Chunk(line, BUFSIZE)
    ensures |p| <= |line|
  {
    if |line| < BUFSIZE || p == line[..BUFSIZE] {
    } else {
      ChunkIsSmaller(line[BUFSIZE..], p);
    }
  }

  lemma GlueEmpty(x: seq<seq<char>>, y: seq<seq<char>>)
    requires |x| > 0 && |y| > 0 && x[|x| - 1] == []
    ensures Glue(x, y) == x[..|x| - 1] + y
  {
    assert x[|x| - 1] + y[0] == y[0] && [y[0]] + y[1..] == y;
  }

  lemma EmptyAtEnd(s: seq<char>, x: seq<seq<char>>)
    requires |x| > 0 && x[|x| - 1] == []
    ensures Matching(s, x) == Matching(s, x[..|x| - 1])
  {
    assert x == x[..|x| - 1] + [[]];
    EmptyNeverHits(s);
    MatchingAppend(s, x[..|x| - 1], [[]]);
  }

  /** A full buffer that ends in a newline cuts nothing. */
  lemma FullLinesFirst(s: seq<char>, a: seq<char>, b: seq<char>)
    requires |a| == BUFSIZE && a[BUFSIZE - 1] == '\n'
    ensures Whole(s, a + b) == Matching(s, Cut(a)) + Whole(s, b)
  {
    var x, y := Split(a, NEWLINES), Split(b, NEWLINES);
    LastLine(a);
    CutBuffer(s, a);
    SplitAppend(a, b);
    GlueEmpty(x, y);
    EmptyAtEnd(s, x);
    MatchingAppend(s, x[..|x| - 1], y);
  }

  /** The last line of a text is empty exactly if the text is empty or ends in a newline. */
  lemma {:induction false} LastLine(a: seq<char>)
    ensures var x := Split(a, NEWLINES); x[|x| - 1] == [] <==> a == [] || a[|a| - 1] == '\n'
  {
    if a == [] {
    } else {
      LastLine(a[1..]);
    }
  }

  /** A full buffer that ends inside a line. */
  lemma CutFound(s: seq<char>, a: seq<char>, b: seq<char>)
    requires |a| == BUFSIZE && a[BUFSIZE - 1] != '\n'
    ensures Matching(s, Cut(a)) + Found(s, b, false) == Whole(s, a + b)
            <==> CutFits(s, Split(a, NEWLINES), Split(b, NEWLINES))
  {
    var x, y := Split(a, NEWLINES), Split(b, NEWLINES);
    LastLine(a);
    CutBuffer(s, a);
    SplitAppend(a, b);
    CutSides(s, x, y);
    CutLineFound(s, x[|x| - 1], y[0], y[1..]);
    SameFront(Matching(s, x[..|x| - 1]),
      Matching(s, [x[|x| - 1]]) + (Matching(s, Chunk(y[0], BUFSIZE)) + Matching(s, Pieces(y[1..], BUFSIZE))),
      Matching(s, [x[|x| - 1] + y[0]]) + Matching(s, y[1..]));
  }

  lemma {:induction false} TrapIsWhole(s: seq<char>, file: seq<char>)
    ensures Found(s, file, true) == Whole(s, file) <==> TrapFits(s, file)
    decreases |file|
  {
    if |file| < BUFSIZE {
      CutBuffer(s, file);
    } else {
      var a, b := file[..BUFSIZE], file[BUFSIZE..];
      assert file == a + b;
      var ends := file[BUFSIZE - 1] == '\n';
      MatchingAppend(s, Cut(a), PiecesOf(b, ends));
      if ends {
        FullLinesFirst(s, a, b);
        TrapIsWhole(s, b);
        SameFront(Matching(s, Cut(a)), Found(s, b, true), Whole(s, b));
      } else {
        CutFound(s, a, b);
      }
    }
  }

  /**
   For every file and pattern: with a newline in the unused byte grep finds the lines that contain the pattern
   exactly if `TrapFits`, or there are none for a pattern that it finds nowhere.
   */
  lemma TrapIsExact(s: seq<char>, file: seq<char>)
    ensures Found(s, file, true) == Naive(s, file) <==> if Searchable(s) then TrapFits(s, file) else Absent(s, file)
  {
    TrapIsWhole(s, file);
    MatchingContaining(s, Split(file, NEWLINES));
    MatchingContaining(s, PiecesOf(file, true));
  }

  /** A short first line and one that is cut before its last character. */
  lemma CutInTwo(a: seq<char>, file: seq<char>)
    requires |a| == BUFSIZE - 1 && (forall c | c in a :: c == 'a') && file == [] + ['\n'] + (a + "b")
    ensures Split(file, NEWLINES) == [[]] + [a + "b"]
    ensures Split(file[..BUFSIZE], NEWLINES) == [[]] + [a] && file[BUFSIZE..] == "b" && Split("b", NEWLINES) == ["b"]
    ensures file[BUFSIZE - 1] == 'a'
  {
    assert file[..BUFSIZE] == [] + ['\n'] + a;
    SplitLine([], '\n', a, NEWLINES);
    SplitLine([], '\n', a + "b", NEWLINES);
    NoBreak(a);
    NoBreak("b");
    NoBreak(a + "b");
    assert file[BUFSIZE - 1] == a[BUFSIZE - 2] && a[BUFSIZE - 2] in a;
  }

  /** So a short line can be missed, though it would be found without that newline. */
  lemma TrapLosesALine()
    ensures exists file: seq<char>, s: seq<char> :: Fits(s, file) && Found(s, file, true) != Naive(s, file)
  {
    var a := seq(BUFSIZE - 1, _ => 'a');
    var file, s := [] + ['\n'] + (a + "b"), "ab";
    CutInTwo(a, file);
    assert s <= (a + "b")[BUFSIZE - 2..];
    assert !CutFits(s, [[]] + [a], ["b"]);
    TrapIsExact(s, file);
  }

  // ---------- the library routines of the program ----------

  /** `ece391_strncmp`. */
  method Strncmp(s1: seq<char>, s2: seq<char>, n: nat) returns (r: int)
    requires '\0' in s1 && '\0' in s2
    ensures r == 0 <==> Clip(s1, n) == Clip(s2, n)
    ensures r != 0 ==> exists i: nat | i < n :: DifferAt(s1, s2, i) && r == s1[i] as int - s2[i] as int
  {
    if n == 0 {
      return 0;
    }
    var i, left := 0, n;
    while s1[i] == s2[i]
      invariant 0 <= i < |s1| && i < |s2| && left == n - i > 0
      invariant s1[..i] == s2[..i] && '\0' !in s1[..i]
      decreases left
    {
      ClipAt(s1, n, i);
      ClipAt(s2, n, i);
      assert s1[..i + 1] == s1[..i] + [s1[i]] && s2[..i + 1] == s2[..i] + [s2[i]];
      if s1[i] == '\0' {
        return 0;
      }
      left := left - 1;
      if left == 0 {
        CStringIs(s1[..n], n);
        CStringIs(s2[..n], n);
        return 0;
      }
      i := i + 1;
    }
    ClipAt(s1, n, i);
    ClipAt(s2, n, i);
    assert DifferAt(s1, s2, i);
    return s1[i] as int - s2[i] as int;
  }

  /** `ece391_strcpy` of a string inside a buffer to the front of that buffer. */
  method Strcpy(data: array<char>, from: nat, ghost end: nat)
    requires from <= end < data.Length && data[end] == '\0' && '\0' !in data[from..end]
    modifies data
    ensures data[..end - from] == old(data[from..end]) && data[end - from] == '\0'
    ensures data[end - from + 1..] == old(data[end - from + 1..])
  {
    var i := 0;
    while data[from + i] != '\0'
      invariant 0 <= i <= end - from
      invariant forall k | 0 <= k < i :: data[k] == old(data[from + k])
      invariant forall k | i <= k < data.Length :: data[k] == old(data[k])
      decreases end - from - i
    {
      assert old(data[from..end])[i] != '\0';
      data[i] := data[from + i];
      i := i + 1;
    }
    data[i] := '\0';
  }

  // ---------- a search through one file ----------

  /** Prints the line from `from` to `end` if it contains the pattern. */
  method SearchLine(data: array<char>, from: nat, end: nat, s: seq<char>, fname: seq<char>) returns (out: seq<char>)
    requires from <= end < data.Length && data[end] == '\0' && '\0' !in data[from..end]
    requires '\0' !in s
    ensures out == Report(fname, Matching(s, [data[from..end]]))
  {
    ghost var line := data[from..end];
    var pattern := s + ['\0'];
    var check := from;
    while check < end
      invariant from <= check <= end
      invariant Searchable(s) ==> forall i | 0 <= i < check - from :: !(s <= line[i..])
    {
      var tail := data[check..end + 1];
      assert tail == line[check - from..] + ['\0'];
      ClipOf(line[check - from..], |s|);
      ClipOf(s, |s|);
      if CharValue(pattern[0]) == data[check] as int {
        assert line[check - from] != '\0';
        var cmp := Strncmp(tail, pattern, |s|);
        if cmp == 0 {
          assert Hit(s, line);
          return fname + ":" + data[from..end] + "\n";
        }
      }
      check := check + 1;
    }
    assert !Hit(s, line);
    return [];
  }

  /** Moves the rest of a line to the front of the buffer. */
  method Shift(data: array<char>, from: nat, end: nat)
    requires from <= end < data.Length && '\0' !in data[from..end]
    modifies data
    ensures data[..end - from] == old(data[from..end])
    ensures from > 0 ==> data[end] == '\0' && data[end + 1..] == old(data[end + 1..])
  {
    data[end] := '\0';
    Strcpy(data, from, end);
  }

  /** `rest` is what follows the first `done` lines. */
  ghost predicate Left(lines: seq<seq<char>>, done: nat, rest: seq<char>) {
    done < |lines| && lines[done..] == Split(rest, NEWLINES)
  }

  /** The first line of what is left. */
  lemma LineOfText(lines: seq<seq<char>>, done: nat, rest: seq<char>, n: nat)
    requires Left(lines, done, rest)
    requires n <= |rest| && '\n' !in rest[..n] && (n < |rest| ==> rest[n] == '\n')
    ensures lines[done] == rest[..n]
    ensures if n < |rest| then Left(lines, done + 1, rest[n + 1..]) else done == |lines| - 1
    ensures n + 1 == |rest| ==> done == |lines| - 2 && lines[done + 1] == []
  {
    assert lines[done] == lines[done..][0] && lines[done + 1..] == lines[done..][1..];
    if n < |rest| {
      SplitLine(rest[..n], '\n', rest[n + 1..], NEWLINES);
      assert rest[..n] + ['\n'] + rest[n + 1..] == rest;
      if n + 1 == |rest| {
        assert lines[done + 1] == lines[done + 1..][0];
      }
    } else {
      assert rest[..n] == rest;
      NoBreak(rest);
    }
  }

  /** The end of the line that begins at `from`. */
  method LineEnd(data: array<char>, from: nat, last: nat, ghost lines: seq<seq<char>>, ghost done: nat)
    returns (end: nat)
    requires from <= last < data.Length && Left(lines, done, data[from..last])
    ensures from <= end <= last && lines[done] == data[from..end] && '\n' !in data[from..end]
    ensures end < last ==> data[end] == '\n' && Left(lines, done + 1, data[end + 1..last])
    ensures end == last ==> done == |lines| - 1
    ensures end + 1 == last ==> done == |lines| - 2 && lines[done + 1] == []
  {
    end := from;
    while end < last && '\n' != data[end]
      invariant from <= end <= last && '\n' !in data[from..end]
    {
      assert data[from..end + 1] == data[from..end] + [data[end]];
      end := end + 1;
    }
    ghost var rest := data[from..last];
    assert rest[..end - from] == data[from..end] && (end < last ==> rest[end + 1 - from..] == data[end + 1..last]);
    LineOfText(lines, done, rest, end - from);
  }

  /** Ends a line with a NUL and searches it. */
  method TakeLine(data: array<char>, from: nat, end: nat, s: seq<char>, fname: seq<char>, sofar: seq<char>,
                  ghost lines: seq<seq<char>>, ghost done: nat)
    returns (out: seq<char>)
    requires from <= end < data.Length && '\0' !in data[from..end] && '\0' !in s
    requires done < |lines| && data[from..end] == lines[done] && sofar == Report(fname, Matching(s, lines[..done]))
    modifies data
    ensures out == Report(fname, Matching(s, lines[..done + 1]))
    ensures data[end] == '\0' && data[end + 1..] == old(data[end + 1..])
  {
    data[end] := '\0';
    var found := SearchLine(data, from, end, s, fname);
    OneLineMore(s, fname, lines, done);
    return sofar + found;
  }

  /** Behind a line the buffer is as it was. */
  lemma TailsAgree(a: seq<char>, b: seq<char>, from: nat, to: nat)
    requires from <= to <= |a| && |a| == |b| && a[from..] == b[from..]
    ensures a[from..to] == b[from..to] && a[to..] == b[to..]
    ensures to < |a| ==> a[to] == b[to]
  {
    assert a[from..to] == a[from..][..to - from] && b[from..to] == b[from..][..to - from];
    assert a[to..] == a[from..][to - from..] && b[to..] == b[from..][to - from..];
    assert to < |a| ==> a[to] == a[to..][0] && b[to] == b[to..][0];
  }

  lemma NoNulIn(buffer: seq<char>, from: nat, to: nat, last: nat)
    requires from <= to <= last <= |buffer| && '\0' !in buffer[..last]
    ensures '\0' !in buffer[from..to]
  {
    assert buffer[from..to] == buffer[..last][from..to];
  }

  /** A buffer that ends inside its last line does not end in a newline. */
  lemma LastOfLine(buffer: seq<char>, from: nat, last: nat)
    requires from < last <= |buffer| && '\n' !in buffer[from..last]
    ensures buffer[last - 1] != '\n'
  {
    assert buffer[last - 1] == buffer[from..last][last - 1 - from];
  }

  /** What a pass over the buffer leaves of its unused byte. */
  ghost predicate UnusedAfter(now: seq<char>, before: seq<char>, last: nat)
    requires |now| == |before| == BUFSIZE + 1
  {
    now[BUFSIZE] == if last == BUFSIZE && before[BUFSIZE - 1] != '\n' then '\0' else before[BUFSIZE]
  }

  lemma UnusedIs(now: seq<char>, before: seq<char>, from: nat, end: nat, last: nat)
    requires |now| == |before| == BUFSIZE + 1 && from <= end <= last <= BUFSIZE && (from == last ==> last == 0)
    requires end < last ==> end + 1 == last && before[end] == '\n'
    requires end == last ==> '\n' !in before[from..last]
    requires now[end] == '\0' && now[end + 1..] == before[end + 1..]
    ensures UnusedAfter(now, before, last)
  {
    if end == last > from {
      LastOfLine(before, from, last);
    }
    if end < BUFSIZE {
      TailsAgree(now, before, end + 1, BUFSIZE);
    }
  }

  /** The lines before `start` have been searched, and behind it the buffer is as it was. */
  ghost predicate Searching(data: seq<char>, before: seq<char>, start: nat, last: nat,
                            lines: seq<seq<char>>, done: nat) {
    && |data| == |before| == BUFSIZE + 1 && start <= last <= BUFSIZE && (start == last ==> last == 0)
    && '\0' !in before[..last] && data[start..] == before[start..]
    && Left(lines, done, before[start..last]) && (done == 0) == (start == 0)
  }

  /** The last line of the buffer is kept for the next read, rather than searched. */
  predicate Keeps(before: seq<char>, cnt: nat, last: nat, lines: seq<seq<char>>)
    requires last < |before|
  {
    cnt != 0 && before[last] != '\n' && |lines| > 1
  }

  function SearchedLines(before: seq<char>, cnt: nat, last: nat, lines: seq<seq<char>>): seq<seq<char>>
    requires last < |before|
  {
    if Keeps(before, cnt, last, lines) then lines[..|lines| - 1] else lines
  }

  /** What a pass over the buffer leaves in it. */
  ghost predicate Passed(data: seq<char>, before: seq<char>, cnt: nat, last: nat, lines: seq<seq<char>>, kept: nat)
    requires |lines| > 0
  {
    && |data| == |before| == BUFSIZE + 1 && kept <= last <= BUFSIZE && UnusedAfter(data, before, last)
    && data[..kept] == if Keeps(before, cnt, last, lines) then lines[|lines| - 1] else []
  }

  /** All that a pass over the buffer `before` does. */
  ghost predicate SearchDone(now: seq<char>, before: seq<char>, cnt: nat, last: nat, s: seq<char>, fname: seq<char>,
                             kept: nat, out: seq<char>)
    requires last <= BUFSIZE && |before| == BUFSIZE + 1
  {
    var lines := Split(before[..last], NEWLINES);
    && out == Report(fname, Matching(s, SearchedLines(before, cnt, last, lines)))
    && Passed(now, before, cnt, last, lines, kept)
  }

  /** The next line of a search, as the buffer has it and had it. */
  method NextLine(data: array<char>, start: nat, last: nat,
                  ghost before: seq<char>, ghost lines: seq<seq<char>>, ghost done: nat)
    returns (end: nat)
    requires Searching(data[..], before, start, last, lines, done)
    ensures start <= end <= last && data[end] == before[end]
    ensures lines[done] == data[start..end] == before[start..end] && '\0' !in data[start..end]
    ensures data[end + 1..] == before[end + 1..]
    ensures end < last ==> data[end] == '\n' && Left(lines, done + 1, before[end + 1..last])
    ensures end == last ==> done == |lines| - 1 && '\n' !in before[start..last]
    ensures end + 1 == last ==> done == |lines| - 2 && lines[done + 1] == []
  {
    TailsAgree(data[..], before, start, last);
    end := LineEnd(data, start, last, lines, done);
    TailsAgree(data[..], before, start, end);
    TailsAgree(data[..], before, start, end + 1);
    NoNulIn(before, start, end, last);
    if end < last {
      TailsAgree(data[..], before, end + 1, last);
    }
  }

  /** The last line goes to the front of the buffer. */
  method KeepRest(data: array<char>, start: nat, last: nat,
                  ghost before: seq<char>, ghost lines: seq<seq<char>>, ghost done: nat, ghost cnt: nat,
                  ghost s: seq<char>, ghost fname: seq<char>, ghost out: seq<char>)
    requires Searching(data[..], before, start, last, lines, done) && 0 < start < last && done == |lines| - 1
    requires lines[done] == data[start..last] && '\0' !in data[start..last] && '\n' !in before[start..last]
    requires data[last + 1..] == before[last + 1..] && cnt != 0 && before[last] != '\n'
    requires lines == Split(before[..last], NEWLINES) && out == Report(fname, Matching(s, lines[..done]))
    modifies data
    ensures SearchDone(data[..], before, cnt, last, s, fname, last - start, out)
  {
    Shift(data, start, last);
    UnusedIs(data[..], before, start, last, last);
  }

  /** A pass that has reached the end of the buffer. */
  lemma PassEnds(s: seq<char>, now: seq<char>, before: seq<char>, start: nat, end: nat, last: nat, cnt: nat,
                 lines: seq<seq<char>>, done: nat, fname: seq<char>, out: seq<char>)
    requires |now| == |before| == BUFSIZE + 1 && start <= end <= last <= BUFSIZE && (start == last ==> last == 0)
    requires done < |lines| && ((done == 0) == (start == 0)) && end + 1 >= last
    requires end < last ==> before[end] == '\n' && done == |lines| - 2 && lines[done + 1] == []
    requires end == last ==> '\n' !in before[start..last] && done == |lines| - 1
    requires end == last ==> before[last] == '\n' || cnt == 0 || start == 0
    requires now[end] == '\0' && now[end + 1..] == before[end + 1..]
    requires lines == Split(before[..last], NEWLINES) && out == Report(fname, Matching(s, lines[..done + 1]))
    ensures SearchDone(now, before, cnt, last, s, fname, 0, out)
  {
    UnusedIs(now, before, start, end, last);
    AllSearched(s, lines, done + 1);
  }

  /** One turn of the inner loop. */
  method SearchNext(data: array<char>, cnt: nat, start: nat, last: nat, s: seq<char>, fname: seq<char>,
                    sofar: seq<char>, ghost before: seq<char>, ghost lines: seq<seq<char>>, ghost done: nat)
    returns (ends: bool, kept: nat, next: nat, out: seq<char>)
    requires Searching(data[..], before, start, last, lines, done) && '\0' !in s
    requires lines == Split(before[..last], NEWLINES) && sofar == Report(fname, Matching(s, lines[..done]))
    modifies data
    ensures ends ==> SearchDone(data[..], before, cnt, last, s, fname, kept, out)
    ensures !ends ==> start < next && Searching(data[..], before, next, last, lines, done + 1)
    ensures !ends ==> out == Report(fname, Matching(s, lines[..done + 1]))
  {
    var end := NextLine(data, start, last, before, lines, done);
    if '\n' != data[end] && 0 != cnt && start != 0 {
      KeepRest(data, start, last, before, lines, done, cnt, s, fname, sofar);
      return true, last - start, start, sofar;
    }
    out := TakeLine(data, start, end, s, fname, sofar, lines, done);
    if end + 1 >= last {
      PassEnds(s, data[..], before, start, end, last, cnt, lines, done, fname, out);
      return true, 0, start, out;
    }
    return false, 0, end + 1, out;
  }

  /**
   One pass over the buffer after a read of `cnt` bytes: full lines are searched; a rest of a line is
   moved to the front, unless the file is at its end, the buffer holds nothing else, or the byte behind
   it looks like its end.
   */
  method SearchBuffer(data: array<char>, cnt: nat, last: nat, s: seq<char>, fname: seq<char>)
    returns (kept: nat, out: seq<char>)
    requires data.Length == BUFSIZE + 1 && last <= BUFSIZE && '\0' !in data[..last] && '\0' !in s
    modifies data
    ensures SearchDone(data[..], old(data[..]), cnt, last, s, fname, kept, out)
  {
    ghost var before := data[..];
    ghost var lines := Split(before[..last], NEWLINES);
    ghost var done := 0;
    out := [];
    kept := 0;
    var ends, lineStart := false, 0;
    assert before[0..last] == before[..last] == data[..last];
    while !ends
      invariant ends ==> SearchDone(data[..], before, cnt, last, s, fname, kept, out)
      invariant !ends ==> Searching(data[..], before, lineStart, last, lines, done)
      invariant !ends ==> out == Report(fname, Matching(s, lines[..done]))
      decreases !ends, last - lineStart
    {
      ends, kept, lineStart, out := SearchNext(data, cnt, lineStart, last, s, fname, out, before, lines, done);
      done := done + 1;
    }
  }

  lemma OneLineMore(s: seq<char>, fname: seq<char>, lines: seq<seq<char>>, done: nat)
    requires done < |lines|
    ensures Report(fname, Matching(s, lines[..done + 1]))
         == Report(fname, Matching(s, lines[..done])) + Report(fname, Matching(s, [lines[done]]))
  {
    assert lines[..done + 1] == lines[..done] + [lines[done]];
    MatchingAppend(s, lines[..done], [lines[done]]);
    ReportAppend(fname, Matching(s, lines[..done]), Matching(s, [lines[done]]));
  }

  /** An empty last line need not be searched. */
  lemma AllSearched(s: seq<char>, lines: seq<seq<char>>, done: nat)
    requires done == |lines| || (done == |lines| - 1 && lines[done] == [])
    ensures Matching(s, lines[..done]) == Matching(s, lines)
  {
    if done == |lines| {
      assert lines[..done] == lines;
    } else {
      assert lines == lines[..done] + [[]];
      MatchingAppend(s, lines[..done], [[]]);
      EmptyNeverHits(s);
    }
  }

  /** What a name other than that of the directory gives to read: the real-time clock gives no bytes. */
  function ContentOf(fs: Image, name: seq<char>): seq<char>
    requires fs.Valid()
  {
    match Resolve(fs, name)
    case Contents(inode) => fs.Flat(inode)
    case _ => []
  }

  ghost predicate Ready(fs: Image, p: Process, data: array<char>)
    reads p.available, p.fd, p.keyboard, p.keyboard.buffer
  {
    && p.Allocated() && Descriptors.Valid(fs, p.Value()) && p.keyboard.Valid()
    && data.Length == BUFSIZE + 1 && data != p.keyboard.buffer
  }

  /** Descriptor `fd` has `unread` still to give. */
  ghost predicate Reads(fs: Image, t: Fds, fd: nat, unread: seq<char>)
    requires Descriptors.Valid(fs, t)
  {
    && 2 <= fd && t.InUse(fd) && t.fd[fd].kind in {File, Rtc}
    && unread == if t.fd[fd].kind == File then fs.Flat(t.fd[fd].inode)[t.fd[fd].pos..] else []
  }

  /** Two tables that differ in the position of one descriptor at most. */
  ghost predicate SameButFor(t: Fds, u: Fds, fd: nat) {
    && t.Shape() && u.Shape() && t.available == u.available
    && forall i | 0 <= i < MAX_FILES && i != fd :: t.fd[i] == u.fd[i]
  }

  /** Fills the buffer up, as far as the file goes. */
  method Refill(fs: Image, p: Process, fd: nat, data: array<char>, last: nat, ghost unread: seq<char>)
    returns (cnt: nat)
    requires Ready(fs, p, data) && last <= BUFSIZE && Reads(fs, p.Value(), fd, unread)
    modifies p.fd, data, p.keyboard
    ensures Ready(fs, p, data) && SameButFor(old(p.Value()), p.Value(), fd)
    ensures cnt == Min(BUFSIZE - last, |unread|) && Reads(fs, p.Value(), fd, unread[cnt..])
    ensures data[..] == Spliced(old(data[..]), last, unread[..cnt])
  {
    ghost var (after, answer) := Served(fs, p.Value(), Read(fd, BUFSIZE - last));
    ReadGives(fs, p.Value(), fd, unread, BUFSIZE - last, Min(BUFSIZE - last, |unread|), after, answer);
    cnt := Fetch(fs, p, fd, data, last, unread);
    assert p.Value() == after;
  }

  /** The read as such. */
  method Fetch(fs: Image, p: Process, fd: nat, data: array<char>, last: nat, ghost unread: seq<char>) returns (cnt: nat)
    requires Ready(fs, p, data) && last <= BUFSIZE && Reads(fs, p.Value(), fd, unread)
    modifies p.fd, data, p.keyboard
    ensures p.Value() == Served(fs, old(p.Value()), Read(fd, BUFSIZE - last)).0
    ensures p.keyboard.Value() == old(p.keyboard.Value())
    ensures cnt == Min(BUFSIZE - last, |unread|) && data[..] == Spliced(old(data[..]), last, unread[..cnt])
  {
    ghost var t, before := p.Value(), data[..];
    ghost var (after, answer) := Served(fs, t, Read(fd, BUFSIZE - last));
    ReadGives(fs, t, fd, unread, BUFSIZE - last, Min(BUFSIZE - last, |unread|), after, answer);
    var r := p.ReadFile(fs, fd, data, last, BUFSIZE - last);
    Fetched(before, last, unread, t.fd[fd].kind == File, answer, r, data[..]);
    cnt := r;
  }

  /** What the answer of the read means for the buffer. */
  lemma Fetched(before: seq<char>, last: nat, unread: seq<char>, isFile: bool, answer: Answer, r: int, now: seq<char>)
    requires last <= BUFSIZE < |before|
    requires var cnt := Min(BUFSIZE - last, |unread|);
             answer == (if isFile then Data(unread[..cnt]) else Code(0)) && (!isFile ==> unread == [])
    requires answer.Data? ==> r == |answer.bytes| && now == Spliced(before, last, answer.bytes)
    requires answer == Code(0) ==> r == 0 && now == before
    ensures var cnt := Min(BUFSIZE - last, |unread|); r == cnt && now == Spliced(before, last, unread[..cnt])
  {
    if !isFile {
      NothingSpliced(before, last);
      assert unread[..0] == [];
    }
  }

  lemma NothingSpliced(buf: seq<char>, at: nat)
    requires at <= |buf|
    ensures Spliced(buf, at, []) == buf
  {
  }

  lemma ReadGives(fs: Image, t: Fds, fd: nat, unread: seq<char>, n: Size, cnt: nat, after: Fds, answer: Answer)
    requires Descriptors.Valid(fs, t) && Reads(fs, t, fd, unread) && (after, answer) == Served(fs, t, Read(fd, n))
    requires cnt == Min(n, |unread|)
    ensures Descriptors.Valid(fs, after) && SameButFor(t, after, fd) && Reads(fs, after, fd, unread[cnt..])
    ensures answer == (if t.fd[fd].kind == File then Data(unread[..cnt]) else Code(0))
    ensures t.fd[fd].kind != File ==> unread == []
  {
    ServedIsValid(fs, t, Read(fd, n));
    if t.fd[fd].kind == File {
      UnreadPart(fs.Flat(t.fd[fd].inode), t.fd[fd].pos, cnt);
    }
  }

  lemma UnreadPart(flat: seq<char>, pos: nat, cnt: nat)
    requires pos + cnt <= |flat|
    ensures flat[pos..][..cnt] == flat[pos..pos + cnt] && flat[pos..][cnt..] == flat[pos + cnt..]
  {
  }

  /** What the buffer holds between two reads: the beginning of a line, in the trap only if nothing more follows. */
  ghost predicate Partial(line: seq<char>, unread: seq<char>, trap: bool) {
    |line| < BUFSIZE && '\n' !in line && '\0' !in line && (trap ==> line == [] || unread == [])
  }

  /** A read and a pass over the buffer find what the file holds up to the place they reach. */
  lemma Round(s: seq<char>, line: seq<char>, unread: seq<char>, cnt: nat, behind: char, trap: bool)
    requires Partial(line, unread, trap) && '\0' !in unread && cnt == Min(BUFSIZE - |line|, |unread|)
    requires |line| + cnt == BUFSIZE ==> (behind == '\n') == trap
    ensures var buffer, rest := line + unread[..cnt], unread[cnt..];
            var lines := Split(buffer, NEWLINES);
            var keeps := cnt != 0 && behind != '\n' && |lines| > 1;
            var next := if keeps then lines[|lines| - 1] else [];
            && Found(s, line + unread, trap)
            == Matching(s, if keeps then lines[..|lines| - 1] else lines)
               + Found(s, next + rest, TrapAfter(trap, buffer))
            && Partial(next, rest, TrapAfter(trap, buffer))
            && (cnt == 0 ==> rest == [])
  {
    var buffer, rest := line + unread[..cnt], unread[cnt..];
    var lines := Split(buffer, NEWLINES);
    assert line + unread == buffer + rest;
    LineLengths(buffer);
    if cnt != 0 && behind != '\n' && |lines| > 1 {
      assert forall c | c in lines[|lines| - 1] :: c in buffer;
      KeptPass(s, buffer, rest, trap);
    } else {
      if |buffer| == BUFSIZE && !trap {
        assert |lines| == 1;
      }
      WholePass(s, buffer, rest, trap);
      assert [] + rest == rest;
    }
  }

  /** What is still to be printed: of the line in the buffer and of what is not read. */
  ghost function Todo(s: seq<char>, fname: seq<char>, line: seq<char>, unread: seq<char>, trap: bool): seq<char> {
    Report(fname, Found(s, line + unread, trap))
  }

  lemma RoundReported(s: seq<char>, fname: seq<char>, line: seq<char>, unread: seq<char>, cnt: nat, behind: char,
                      trap: bool,
                      sofar: seq<char>, out: seq<char>, next: seq<char>)
    requires Partial(line, unread, trap) && '\0' !in unread && cnt == Min(BUFSIZE - |line|, |unread|)
    requires |line| + cnt == BUFSIZE ==> (behind == '\n') == trap
    requires var lines := Split(line + unread[..cnt], NEWLINES);
             var keeps := cnt != 0 && behind != '\n' && |lines| > 1;
             && out == Report(fname, Matching(s, if keeps then lines[..|lines| - 1] else lines))
             && next == if keeps then lines[|lines| - 1] else []
    ensures var after := TrapAfter(trap, line + unread[..cnt]);
            && sofar + Todo(s, fname, line, unread, trap) == sofar + out + Todo(s, fname, next, unread[cnt..], after)
            && Partial(next, unread[cnt..], after)
            && (cnt == 0 ==> next == [] && unread == [])
  {
    var lines := Split(line + unread[..cnt], NEWLINES);
    var found := Matching(s, if cnt != 0 && behind != '\n' && |lines| > 1 then lines[..|lines| - 1] else lines);
    var after := TrapAfter(trap, line + unread[..cnt]);
    Round(s, line, unread, cnt, behind, trap);
    ReportAppend(fname, found, Found(s, next + unread[cnt..], after));
    Regroup(sofar, out, Todo(s, fname, next, unread[cnt..], after));
  }

  lemma FilledUp(before: seq<char>, last: nat, piece: seq<char>, full: seq<char>)
    requires |before| == BUFSIZE + 1 && last + |piece| <= BUFSIZE && full == Spliced(before, last, piece)
    ensures full[..last + |piece|] == before[..last] + piece && full[BUFSIZE] == before[BUFSIZE]
  {
  }

  /** The same for what is in the buffer after the read and after the pass. */
  lemma BufferRound(s: seq<char>, fname: seq<char>, line: seq<char>, unread: seq<char>, cnt: nat, last: nat,
                    full: seq<char>, now: seq<char>, rest: seq<char>, kept: nat, out: seq<char>, sofar: seq<char>)
    requires |full| == BUFSIZE + 1 && Partial(line, unread, full[BUFSIZE] == '\n') && '\0' !in unread
    requires cnt == Min(BUFSIZE - |line|, |unread|) && last == |line| + cnt && full[..last] == line + unread[..cnt]
    requires SearchDone(now, full, cnt, last, s, fname, kept, out) && rest == unread[cnt..]
    ensures kept < BUFSIZE < |now| && Partial(now[..kept], rest, now[BUFSIZE] == '\n')
    ensures cnt == 0 ==> kept == 0 && unread == []
    ensures sofar + Todo(s, fname, line, unread, full[BUFSIZE] == '\n')
         == sofar + out + Todo(s, fname, now[..kept], rest, now[BUFSIZE] == '\n')
  {
    var trap, buffer := full[BUFSIZE] == '\n', full[..|line| + cnt];
    assert |buffer| == BUFSIZE ==> buffer[BUFSIZE - 1] == full[BUFSIZE - 1];
    assert (now[BUFSIZE] == '\n') == TrapAfter(trap, buffer);
    RoundReported(s, fname, line, unread, cnt, full[|line| + cnt], trap, sofar, out, now[..kept]);
  }

  /** The read behind what is left of a line. */
  method FillUp(fs: Image, p: Process, fd: nat, data: array<char>, last: nat, ghost unread: seq<char>)
    returns (cnt: nat, ghost rest: seq<char>)
    requires Ready(fs, p, data) && last <= BUFSIZE && Reads(fs, p.Value(), fd, unread)
    requires '\0' !in data[..last] && '\0' !in unread
    modifies p.fd, data, p.keyboard
    ensures Ready(fs, p, data) && SameButFor(old(p.Value()), p.Value(), fd) && Reads(fs, p.Value(), fd, rest)
    ensures cnt == Min(BUFSIZE - last, |unread|) && rest == unread[cnt..] && '\0' !in rest
    ensures data[..last + cnt] == old(data[..last]) + unread[..cnt] && '\0' !in data[..last + cnt]
    ensures data[BUFSIZE] == old(data[BUFSIZE])
  {
    ghost var before := data[..];
    cnt := Refill(fs, p, fd, data, last, unread);
    rest := unread[cnt..];
    FilledUp(before, last, unread[..cnt], data[..]);
    assert before[..last] == old(data[..last]);
  }

  /** The pass leaves the descriptors alone. */
  method Pass(fs: Image, p: Process, data: array<char>, cnt: nat, last: nat, s: seq<char>, fname: seq<char>)
    returns (kept: nat, out: seq<char>)
    requires Ready(fs, p, data) && last <= BUFSIZE && '\0' !in data[..last] && '\0' !in s
    modifies data
    ensures Ready(fs, p, data) && p.Value() == old(p.Value())
    ensures SearchDone(data[..], old(data[..]), cnt, last, s, fname, kept, out)
  {
    kept, out := SearchBuffer(data, cnt, last, s, fname);
  }

  /** One turn of the outer loop. */
  method ReadAndSearch(fs: Image, p: Process, s: seq<char>, fname: seq<char>, fd: nat, data: array<char>, last: nat,
                       ghost unread: seq<char>, ghost sofar: seq<char>)
    returns (cnt: nat, kept: nat, out: seq<char>, ghost rest: seq<char>)
    requires Ready(fs, p, data) && Reads(fs, p.Value(), fd, unread) && '\0' !in s && '\0' !in unread
    requires last < BUFSIZE && Partial(data[..last], unread, data[BUFSIZE] == '\n')
    modifies p.fd, data, p.keyboard
    ensures Ready(fs, p, data) && SameButFor(old(p.Value()), p.Value(), fd)
    ensures |rest| == |unread| - cnt && Reads(fs, p.Value(), fd, rest) && '\0' !in rest
    ensures cnt == 0 ==> rest == [] && kept == 0
    ensures kept < BUFSIZE && Partial(data[..kept], rest, data[BUFSIZE] == '\n')
    ensures sofar + Todo(s, fname, old(data[..last]), unread, old(data[BUFSIZE]) == '\n')
         == sofar + out + Todo(s, fname, data[..kept], rest, data[BUFSIZE] == '\n')
  {
    ghost var line := data[..last];
    cnt, rest := FillUp(fs, p, fd, data, last, unread);
    ghost var full := data[..];
    kept, out := Pass(fs, p, data, cnt, last + cnt, s, fname);
    BufferRound(s, fname, line, unread, cnt, last + cnt, full, data[..], rest, kept, out, sofar);
    assert data[..][..kept] == data[..kept];
  }

  /** `do_one_file`; the read and the close do not fail on a descriptor that was just opened. */
  method DoOneFile(fs: Image, p: Process, s: seq<char>, fname: seq<char>, data: array<char>)
    returns (code: int, out: seq<char>)
    requires Ready(fs, p, data) && '\0' !in s && '\0' !in fname && !("." <= fname)
    requires '\0' !in ContentOf(fs, fname)
    modifies p.available, p.fd, data, p.keyboard
    ensures Ready(fs, p, data)
    ensures if Served(fs, old(p.Value()), Open(fname)).1 == Code(-1)
      then code == -1 && out == "file open failed\n" && p.Value() == old(p.Value())
      else
        && code == 0
        && out == Report(fname, Found(s, ContentOf(fs, fname), old(data[BUFSIZE]) == '\n'))
        && SameButFor(old(p.Value()), p.Value(), Served(fs, old(p.Value()), Open(fname)).1.code)
  {
    OpenReads(fs, p.Value(), fname);
    var fd := p.OpenFile(fs, fname);
    if fd == -1 {
      return -1, "file open failed\n";
    }
    CloseRestores(fs, old(p.Value()), fname);
    out := SearchOpened(fs, p, s, fname, fd, data, ContentOf(fs, fname));
    var closed := p.CloseFile(fd, fs);
    return 0, out;
  }

  lemma OpenReads(fs: Image, t: Fds, fname: seq<char>)
    requires Descriptors.Valid(fs, t) && !("." <= fname)
    ensures var (after, answer) := Served(fs, t, Open(fname));
            && Descriptors.Valid(fs, after) && answer.Code? && (answer == Code(-1) ==> after == t)
            && (answer != Code(-1) ==> answer.code >= 0 && Reads(fs, after, answer.code, ContentOf(fs, fname)))
  {
    ServedIsValid(fs, t, Open(fname));
  }

  /** However far the file was read, closing it gives back what opening it took. */
  lemma CloseRestores(fs: Image, t: Fds, fname: seq<char>)
    requires Descriptors.Valid(fs, t) && Served(fs, t, Open(fname)).1 != Code(-1)
    ensures var (after, answer) := Served(fs, t, Open(fname));
            && answer.Code? && answer.code >= 2
            && forall u | Descriptors.Valid(fs, u) && SameButFor(after, u, answer.code) ::
                 var closed := Served(fs, u, Close(answer.code));
                 closed.1 == Code(0) && Descriptors.Valid(fs, closed.0) && SameButFor(t, closed.0, answer.code)
  {
    var (after, answer) := Served(fs, t, Open(fname));
    OpenTakesLowest(fs, t, fname);
    forall u | Descriptors.Valid(fs, u) && SameButFor(after, u, answer.code)
      ensures var closed := Served(fs, u, Close(answer.code));
              closed.1 == Code(0) && Descriptors.Valid(fs, closed.0) && SameButFor(t, closed.0, answer.code)
    {
      ServedIsValid(fs, u, Close(answer.code));
    }
  }

  /** Reads and searches to the end of the file. */
  method SearchOpened(fs: Image, p: Process, s: seq<char>, fname: seq<char>, fd: nat, data: array<char>,
                      ghost content: seq<char>)
    returns (out: seq<char>)
    requires Ready(fs, p, data) && Reads(fs, p.Value(), fd, content) && '\0' !in s && '\0' !in content
    modifies p.fd, data, p.keyboard
    ensures Ready(fs, p, data) && SameButFor(old(p.Value()), p.Value(), fd)
    ensures out == Report(fname, Found(s, content, old(data[BUFSIZE]) == '\n'))
  {
    ghost var unread := content;
    var last, cnt := 0, 1;
    out := [];
    assert data[..0] + content == content;
    while cnt != 0
      invariant Ready(fs, p, data) && Reads(fs, p.Value(), fd, unread) && SameButFor(old(p.Value()), p.Value(), fd)
      invariant 0 <= last < BUFSIZE && '\0' !in unread && Partial(data[..last], unread, data[BUFSIZE] == '\n')
      invariant Report(fname, Found(s, content, old(data[BUFSIZE]) == '\n'))
             == out + Todo(s, fname, data[..last], unread, data[BUFSIZE] == '\n')
      invariant cnt == 0 ==> last == 0 && unread == []
      decreases |unread|, cnt
    {
      var found;
      cnt, last, found, unread := ReadAndSearch(fs, p, s, fname, fd, data, last, unread, out);
      out := out + found;
    }
    NothingLeft(s, fname, data[..last], unread, data[BUFSIZE] == '\n');
  }

  lemma NothingLeft(s: seq<char>, fname: seq<char>, line: seq<char>, unread: seq<char>, trap: bool)
    requires line == [] && unread == []
    ensures Todo(s, fname, line, unread, trap) == []
  {
    assert line + unread == [];
    EmptyCut();
    EmptyNeverHits(s);
  }

  // ---------- the program ----------

  const SBUFSIZE := 33

  /** The buffer is a local variable: `stale` is what the byte behind it holds when the search of entry `k` begins. */
  predicate Trapped(stale: nat -> char, k: nat) {
    stale(k) == '\n'
  }

  /** What grep prints for the entries of the directory from number `k` on: it stops at an entry without a name. */
  ghost function Output(fs: Image, s: seq<char>, k: nat, stale: nat -> char): seq<char>
    requires fs.Valid()
    decreases fs.dirCount - k
  {
    if Stops(fs, k) then []
    else OutputOf(fs, s, NameOf(fs.dentries[k]), Trapped(stale, k)) + Output(fs, s, k + 1, stale)
  }

  predicate Stops(fs: Image, k: nat)
    requires fs.Valid()
  {
    k >= fs.dirCount || EntryLength(fs.dentries[k], SBUFSIZE - 1) == 0
  }

  ghost function OutputOf(fs: Image, s: seq<char>, name: seq<char>, trap: bool): seq<char>
    requires fs.Valid()
  {
    if "." <= name then [] else Report(name, Found(s, ContentOf(fs, name), trap))
  }

  /** Descriptor 2 stands at entry `pos` of the directory and 3 is the next to be given out. */
  ghost predicate Walks(fs: Image, t: Fds, pos: nat) {
    && Descriptors.Valid(fs, t)
    && t.InUse(2) && t.fd[2] == Desc(Directory, -1, pos) && pos <= fs.dirCount
    && forall i | 3 <= i < MAX_FILES :: t.available[i]
  }

  /** The name of an entry opens, and what it takes is given back. */
  lemma ListedNameOpens(fs: Image, t: Fds, pos: nat, k: nat)
    requires Walks(fs, t, pos) && k < fs.dirCount && !("." <= NameOf(fs.dentries[k]))
    ensures Served(fs, t, Open(NameOf(fs.dentries[k]))).1 == Code(3)
    ensures forall u | SameButFor(t, u, 3) :: Walks(fs, u, pos)
  {
    var name := NameOf(fs.dentries[k]);
    assert Lookup(fs, name).Some?;
    FirstTrueIs(t.available, 3);
    assert forall i: nat | i < 3 :: t.InUse(i) == !t.available[i];
    forall u | SameButFor(t, u, 3)
      ensures Walks(fs, u, pos)
    {
      assert forall i: nat | i < MAX_FILES :: u.InUse(i) == t.InUse(i);
    }
  }

  /** Reads the next name; `cnt` is 0 behind the last one. */
  method NextName(fs: Image, p: Process, buf: array<char>, ghost k: nat) returns (cnt: nat)
    requires p.Allocated() && Walks(fs, p.Value(), Min(k, fs.dirCount)) && p.keyboard.Valid()
    requires buf.Length == SBUFSIZE && buf != p.keyboard.buffer
    modifies p.fd, buf, p.keyboard
    ensures Walks(fs, p.Value(), Min(k + 1, fs.dirCount)) && p.keyboard.Valid()
    ensures if k < fs.dirCount
      then cnt == EntryLength(fs.dentries[k], SBUFSIZE - 1) && buf[..cnt] == EntryBytes(fs.dentries[k], SBUFSIZE - 1)
      else cnt == 0
  {
    ServedIsValid(fs, p.Value(), Read(2, SBUFSIZE - 1));
    var r := p.ReadFile(fs, 2, buf, 0, SBUFSIZE - 1);
    cnt := r;
  }

  /** One turn of the loop over the directory: `name` is what the buffer holds as a string. */
  method SearchEntry(fs: Image, p: Process, s: seq<char>, buf: array<char>, cnt: nat, data: array<char>,
                     ghost k: nat, ghost pos: nat)
    returns (code: int, out: seq<char>)
    requires Ready(fs, p, data) && Walks(fs, p.Value(), pos) && '\0' !in s
    requires buf.Length == SBUFSIZE && buf != p.keyboard.buffer && buf != data && 0 < cnt < SBUFSIZE
    requires k < fs.dirCount && buf[..cnt] == EntryBytes(fs.dentries[k], SBUFSIZE - 1)
    requires '\0' !in ContentOf(fs, NameOf(fs.dentries[k]))
    modifies p.available, p.fd, data, buf, p.keyboard
    ensures Ready(fs, p, data) && Walks(fs, p.Value(), pos)
    ensures code == 0 && out == OutputOf(fs, s, NameOf(fs.dentries[k]), old(data[BUFSIZE]) == '\n')
  {
    ghost var name := NameOf(fs.dentries[k]);
    EntryIsName(fs.dentries[k], SBUFSIZE - 1);
    StringInBuffer(buf[..cnt]);
    assert buf[0] == buf[..cnt][0];
    if '.' == buf[0] {
      return 0, [];
    }
    buf[cnt] := '\0';
    assert buf[..cnt + 1] == buf[..cnt] + ['\0'];
    var len := StringLength(buf[..cnt + 1]);
    assert buf[..len] == name;
    ListedNameOpens(fs, p.Value(), pos, k);
    code, out := DoOneFile(fs, p, s, buf[..len], data);
  }

  /** A buffer that is ended by a NUL holds the same string as before. */
  lemma StringInBuffer(bytes: seq<char>)
    requires bytes != []
    ensures CString(bytes + ['\0']) == CString(bytes)
    ensures "." <= CString(bytes) <==> bytes[0] == '.'
  {
    var n := |CString(bytes)|;
    assert (bytes + ['\0'])[..n] == bytes[..n];
    CStringIs(bytes + ['\0'], n);
    if bytes[0] == '.' {
      CStringGoesOn(bytes, 1);
    }
  }

  /** `main` of grep in a process that has opened nothing yet. */
  method Program(fs: Image, p: Process, s: seq<char>, data: array<char>, buf: array<char>, stale: nat -> char)
    returns (code: int, out: seq<char>)
    requires Ready(fs, p, data) && '\0' !in s
    requires buf.Length == SBUFSIZE && buf != p.keyboard.buffer && buf != data
    requires forall i | 2 <= i < MAX_FILES :: p.available[i]
    requires forall k | 0 <= k < fs.dirCount :: '\0' !in ContentOf(fs, NameOf(fs.dentries[k]))
    modifies p.available, p.fd, data, buf, p.keyboard
    ensures if Lookup(fs, ".").Some? then code == 0 && out == Output(fs, s, 0, stale)
            else code == 2 && out == "directory open failed\n"
  {
    assert p.Value().InUse(0) && p.Value().InUse(1);
    FirstTrueIs(p.available[..], 2);
    ServedIsValid(fs, p.Value(), Open("."));
    var fd := p.OpenFile(fs, ".");
    if fd == -1 {
      return 2, "directory open failed\n";
    }
    var k: nat := 0;
    out := [];
    var cnt := NextName(fs, p, buf, 0);
    while cnt != 0
      invariant Ready(fs, p, data) && Walks(fs, p.Value(), Min(k + 1, fs.dirCount))
      invariant if k < fs.dirCount
        then cnt == EntryLength(fs.dentries[k], SBUFSIZE - 1) && buf[..cnt] == EntryBytes(fs.dentries[k], SBUFSIZE - 1)
        else cnt == 0
      invariant Output(fs, s, 0, stale) == out + Output(fs, s, k, stale)
      decreases fs.dirCount - k
    {
      data[BUFSIZE] := stale(k);
      var res, found := SearchEntry(fs, p, s, buf, cnt, data, k, Min(k + 1, fs.dirCount));
      if res != 0 {
        return 3, out;
      }
      Regroup(out, found, Output(fs, s, k + 1, stale));
      out := out + found;
      k := k + 1;
      cnt := NextName(fs, p, buf, k);
    }
    return 0, out;
  }

  // ---------- how this compares with a search of every file ----------

  /** The reference: every file of the directory, whatever its name is, line by line. */
  ghost function NaiveOutput(fs: Image, s: seq<char>, k: nat): seq<char>
    requires fs.Valid()
    decreases fs.dirCount - k
  {
    if k >= fs.dirCount then [] else NaiveOf(fs, s, k) + NaiveOutput(fs, s, k + 1)
  }

  ghost function NaiveOf(fs: Image, s: seq<char>, k: nat): seq<char>
    requires fs.Valid() && k < fs.dirCount
  {
    var name := NameOf(fs.dentries[k]);
    if "." <= name then [] else Report(name, Naive(s, fs.Flat(fs.dentries[k].inode)))
  }

  /** The entry's file is searched rightly; nothing is to be found in one whose name opens the real-time clock. */
  ghost predicate EntryFits(fs: Image, s: seq<char>, k: nat, trap: bool)
    requires fs.Valid() && k < fs.dirCount
  {
    var name, file := NameOf(fs.dentries[k]), fs.Flat(fs.dentries[k].inode);
    "." <= name || if "rtc" <= name || !Searchable(s) then Absent(s, file)
                   else if trap then TrapFits(s, file) else Fits(s, file)
  }

  /** Reports of lists of lines are different, as long as there is no newline inside a line. */
  lemma {:induction false} ReportOneToOne(fname: seq<char>, a: seq<seq<char>>, b: seq<seq<char>>)
    requires forall l | l in a :: '\n' !in l
    requires forall l | l in b :: '\n' !in l
    requires Report(fname, a) == Report(fname, b)
    ensures a == b
  {
    if a == [] || b == [] {
      assert b != [] ==> |Report(fname, b)| > 0;
      assert a != [] ==> |Report(fname, a)| > 0;
    } else {
      var x, y := Report(fname, a[1..]), Report(fname, b[1..]);
      var head := fname + ":";
      assert Report(fname, a) == head + (a[0] + ['\n'] + x) && Report(fname, b) == head + (b[0] + ['\n'] + y);
      SameFront(head, a[0] + ['\n'] + x, b[0] + ['\n'] + y);
      SameFirstLine(a[0], x, b[0], y);
      ReportOneToOne(fname, a[1..], b[1..]);
    }
  }

  lemma SameFirstLine(a: seq<char>, x: seq<char>, b: seq<char>, y: seq<char>)
    requires '\n' !in a && '\n' !in b && a + ['\n'] + x == b + ['\n'] + y
    ensures a == b && x == y
  {
    BreakAt(a, x);
    BreakAt(b, y);
  }

  lemma BreakAt(a: seq<char>, x: seq<char>)
    requires '\n' !in a
    ensures var t := a + ['\n'] + x;
            && t[|a|] == '\n' && (forall i | 0 <= i < |a| :: t[i] != '\n')
            && t[..|a|] == a && t[|a| + 1..] == x
  {
  }

  lemma {:induction false} ChunksHaveNoBreak(line: seq<char>, p: seq<char>)
    requires '\n' !in line && p in Chunk(line, BUFSIZE)
    ensures '\n' !in p
  {
    if |line| < BUFSIZE || p == line[..BUFSIZE] {
    } else {
      ChunksHaveNoBreak(line[BUFSIZE..], p);
    }
  }

  lemma {:induction false} PiecesHaveNoBreak(lines: seq<seq<char>>, p: seq<char>)
    requires (forall l | l in lines :: '\n' !in l) && p in Pieces(lines, BUFSIZE)
    ensures '\n' !in p
  {
    if p in Chunk(lines[0], BUFSIZE) {
      ChunksHaveNoBreak(lines[0], p);
    } else {
      PiecesHaveNoBreak(lines[1..], p);
    }
  }

  lemma {:induction false} FoundHaveNoBreak(s: seq<char>, file: seq<char>, trap: bool, p: seq<char>)
    requires p in PiecesOf(file, trap)
    ensures '\n' !in p
    decreases |file|
  {
    if !trap || |file| < BUFSIZE {
      LineLengths(file);
      PiecesHaveNoBreak(Split(file, NEWLINES), p);
    } else if p in Cut(file[..BUFSIZE]) {
      LineLengths(file[..BUFSIZE]);
      PiecesHaveNoBreak(Split(file[..BUFSIZE], NEWLINES), p);
    } else {
      FoundHaveNoBreak(s, file[BUFSIZE..], file[BUFSIZE - 1] == '\n', p);
    }
  }

  lemma {:induction false} ContainingIs(s: seq<char>, lines: seq<seq<char>>, l: seq<char>)
    requires l in Containing(s, lines)
    ensures l in lines
  {
    if Contains(lines[0], s) && l == lines[0] {
    } else {
      ContainingIs(s, lines[1..], l);
    }
  }

  /** The report on a file is right exactly if the lines found in it are. */
  lemma ReportsAgreeIff(s: seq<char>, fname: seq<char>, content: seq<char>, trap: bool, file: seq<char>)
    ensures Report(fname, Found(s, content, trap)) == Report(fname, Naive(s, file))
            <==> Found(s, content, trap) == Naive(s, file)
  {
    forall l | l in Found(s, content, trap)
      ensures '\n' !in l
    {
      MatchingIs(s, PiecesOf(content, trap), l);
      FoundHaveNoBreak(s, content, trap, l);
    }
    forall l | l in Naive(s, file)
      ensures '\n' !in l
    {
      ContainingIs(s, Split(file, NEWLINES), l);
      LineLengths(file);
    }
    if Report(fname, Found(s, content, trap)) == Report(fname, Naive(s, file)) {
      ReportOneToOne(fname, Found(s, content, trap), Naive(s, file));
    }
  }

  lemma NothingFound(s: seq<char>, trap: bool)
    ensures Found(s, [], trap) == []
  {
    EmptyCut();
    EmptyNeverHits(s);
  }

  /** What is printed for an entry that is the first of its name is right exactly if `EntryFits`. */
  lemma EntryIsExact(fs: Image, s: seq<char>, k: nat, trap: bool)
    requires fs.Valid() && k < fs.dirCount && Lookup(fs, NameOf(fs.dentries[k])) == Some(k)
    ensures OutputOf(fs, s, NameOf(fs.dentries[k]), trap) == NaiveOf(fs, s, k) <==> EntryFits(fs, s, k, trap)
  {
    var name, file := NameOf(fs.dentries[k]), fs.Flat(fs.dentries[k].inode);
    ReportsAgreeIff(s, name, ContentOf(fs, name), trap, file);
    if "rtc" <= name {
      NothingFound(s, trap);
      MatchingContaining(s, Split(file, NEWLINES));
    } else {
      GrepIsExact(s, file);
      TrapIsExact(s, file);
    }
  }

  /** Every entry has a name of its own and fits, given what the byte behind the buffer holds. */
  ghost predicate FilesFit(fs: Image, s: seq<char>, k: nat, stale: nat -> char)
    requires fs.Valid()
    decreases fs.dirCount - k
  {
    k >= fs.dirCount || (
      && !Stops(fs, k) && Lookup(fs, NameOf(fs.dentries[k])) == Some(k)
      && EntryFits(fs, s, k, Trapped(stale, k)) && FilesFit(fs, s, k + 1, stale))
  }

  lemma FirstEntryIsNaive(fs: Image, s: seq<char>, k: nat, stale: nat -> char, rest: seq<char>, naive: seq<char>)
    requires fs.Valid() && k < fs.dirCount && FilesFit(fs, s, k, stale) && rest == naive
    requires rest == Output(fs, s, k + 1, stale) && naive == NaiveOutput(fs, s, k + 1)
    ensures Output(fs, s, k, stale) == NaiveOutput(fs, s, k)
  {
    EntryIsExact(fs, s, k, Trapped(stale, k));
    assert Output(fs, s, k, stale) == OutputOf(fs, s, NameOf(fs.dentries[k]), Trapped(stale, k)) + rest;
    assert NaiveOutput(fs, s, k) == NaiveOf(fs, s, k) + naive;
  }

  /** Then the output is that of a search line by line through every file. */
  lemma {:induction false} OutputIsNaive(fs: Image, s: seq<char>, k: nat, stale: nat -> char)
    requires fs.Valid() && FilesFit(fs, s, k, stale)
    ensures Output(fs, s, k, stale) == NaiveOutput(fs, s, k)
    decreases fs.dirCount - k
  {
    if k >= fs.dirCount {
    } else {
      OutputIsNaive(fs, s, k + 1, stale);
      FirstEntryIsNaive(fs, s, k, stale, Output(fs, s, k + 1, stale), NaiveOutput(fs, s, k + 1));
    }
  }

  // ---------- what these conditions keep out ----------

  /** A directory with two files of one character each. */
  ghost predicate Holds(fs: Image, a: seq<char>, x: char, b: seq<char>, y: char) {
    && fs.Valid() && fs.dirCount == 2 && NameOf(fs.dentries[0]) == a && NameOf(fs.dentries[1]) == b
    && (forall k | 0 <= k < 2 :: fs.dentries[k].filename[FILENAME_LEN - 1] == '\0')
    && fs.Flat(fs.dentries[0].inode) == [x] && fs.Flat(fs.dentries[1].inode) == [y]
  }

  lemma Named(name: seq<char>, inode: nat) returns (d: Dentry)
    requires |name| < FILENAME_LEN && '\0' !in name
    ensures |d.filename| == FILENAME_LEN && d.filename[FILENAME_LEN - 1] == '\0'
    ensures NameOf(d) == name && d.inode == inode
  {
    var filename := name + seq(FILENAME_LEN - |name|, _ => '\0');
    assert filename[..|name|] == name;
    CStringIs(filename, |name|);
    d := Dentry(filename, 2, inode);
  }

  lemma TwoFiles(a: seq<char>, x: char, b: seq<char>, y: char) returns (fs: Image)
    requires |a| < FILENAME_LEN && |b| < FILENAME_LEN && '\0' !in a && '\0' !in b
    ensures Holds(fs, a, x, b, y)
  {
    var c := Named(a, 0);
    var d := Named(b, 1);
    var e := seq(BYTES_PER_BLOCK, _ => '\0');
    fs := Image([c, d], 2, [Inode(1, [0]), Inode(1, [1])],
                [e, e, e, seq(BYTES_PER_BLOCK, _ => x), seq(BYTES_PER_BLOCK, _ => y)]);
  }

  lemma OneCharacter(c: char)
    requires c != '\n'
    ensures Naive("a", [c]) == if c == 'a' then ["a"] else []
    ensures forall trap :: Found("a", [c], trap) == Naive("a", [c])
  {
    NoBreak([c]);
    var lines: seq<seq<char>> := [[c]];
    assert lines[1..] == [];
    assert [c][0..] == [c] && [c][1..] == [];
    CutBuffer("a", [c]);
    MatchingContaining("a", Split([c], NEWLINES));
  }

  /** What is to be printed for a file of one character. */
  function OneReport(name: seq<char>, c: char): seq<char> {
    if c == 'a' then name + ":a\n" else []
  }

  lemma ReportOne(name: seq<char>, c: char)
    requires c != '\n'
    ensures Report(name, Naive("a", [c])) == OneReport(name, c)
  {
    OneCharacter(c);
    var lines: seq<seq<char>> := ["a"];
    assert lines[1..] == [];
    assert name + ":" + "a" + "\n" + [] == name + ":a\n";
  }

  /** Two such files, and what is to be printed. */
  lemma NaiveOfTwo(fs: Image, a: seq<char>, x: char, b: seq<char>, y: char)
    requires Holds(fs, a, x, b, y) && x != '\n' && y != '\n' && !("." <= a) && !("." <= b)
    ensures NaiveOutput(fs, "a", 0) == OneReport(a, x) + OneReport(b, y)
  {
    ReportOne(a, x);
    ReportOne(b, y);
    assert NaiveOutput(fs, "a", 2) == [];
  }

  lemma TwoOutputs(fs: Image, stale: nat -> char)
    requires fs.Valid() && fs.dirCount == 2
    ensures Output(fs, "a", 0, stale) ==
              if Stops(fs, 0) then []
              else OutputOf(fs, "a", NameOf(fs.dentries[0]), Trapped(stale, 0))
                     + if Stops(fs, 1) then [] else OutputOf(fs, "a", NameOf(fs.dentries[1]), Trapped(stale, 1))
  {
    assert Output(fs, "a", 2, stale) == [];
  }

  /** Nothing is printed for a name that opens the clock or a file without an 'a'. */
  lemma NothingPrinted(fs: Image, name: seq<char>, c: char, trap: bool)
    requires fs.Valid() && ("rtc" <= name || ContentOf(fs, name) == [c]) && c != 'a' && c != '\n'
    ensures OutputOf(fs, "a", name, trap) == []
  {
    NothingFound("a", trap);
    OneCharacter(c);
  }

  lemma ContentsOfTwo(fs: Image, a: seq<char>, x: char, b: seq<char>, y: char)
    requires Holds(fs, a, x, b, y)
    ensures !("rtc" <= a) && !("." <= a) ==> ContentOf(fs, a) == [x]
    ensures a != b && !("rtc" <= b) && !("." <= b) ==> ContentOf(fs, b) == [y]
  {
    assert Lookup(fs, a) == Some(0);
    assert a != b ==> Lookup(fs, b) == Some(1);
  }

  lemma NothingForTwo(fs: Image, a: seq<char>, x: char, b: seq<char>, y: char, stale: nat -> char)
    requires Holds(fs, a, x, b, y) && !("." <= a) && !("." <= b) && !("rtc" <= b)
    requires if a == b then x == 'b' else "rtc" <= a && y == 'b'
    ensures Output(fs, "a", 0, stale) == []
  {
    ContentsOfTwo(fs, a, x, b, y);
    TwoOutputs(fs, stale);
    NothingPrinted(fs, a, 'b', Trapped(stale, 0));
    NothingPrinted(fs, b, 'b', Trapped(stale, 1));
  }

  /** The name of an ordinary file. */
  predicate Plain(name: seq<char>) {
    0 < |name| < FILENAME_LEN && '\0' !in name && !("rtc" <= name) && !("." <= name)
  }

  /** A file whose name begins with "rtc" is not read, whatever there is besides. */
  lemma RtcFileIsMissed(name: seq<char>, other: seq<char>, stale: nat -> char) returns (fs: Image)
    requires "rtc" <= name && |name| < FILENAME_LEN && '\0' !in name && Plain(other)
    ensures Holds(fs, name, 'a', other, 'b')
    ensures Output(fs, "a", 0, stale) == [] && NaiveOutput(fs, "a", 0) == name + ":a\n"
  {
    fs := TwoFiles(name, 'a', other, 'b');
    NaiveOfTwo(fs, name, 'a', other, 'b');
    NothingForTwo(fs, name, 'a', other, 'b', stale);
  }

  /** The search ends at an entry without a name. */
  lemma FileBehindNamelessIsMissed(name: seq<char>, stale: nat -> char) returns (fs: Image)
    requires Plain(name)
    ensures Holds(fs, [], 'b', name, 'a')
    ensures Output(fs, "a", 0, stale) == [] && NaiveOutput(fs, "a", 0) == name + ":a\n"
  {
    fs := TwoFiles([], 'b', name, 'a');
    NaiveOfTwo(fs, [], 'b', name, 'a');
    TwoOutputs(fs, stale);
  }

  /** Of two files with the same name the first is read twice. */
  lemma SecondOfANameIsMissed(name: seq<char>, stale: nat -> char) returns (fs: Image)
    requires Plain(name)
    ensures Holds(fs, name, 'b', name, 'a')
    ensures Output(fs, "a", 0, stale) == [] && NaiveOutput(fs, "a", 0) == name + ":a\n"
  {
    fs := TwoFiles(name, 'b', name, 'a');
    NaiveOfTwo(fs, name, 'b', name, 'a');
    NothingForTwo(fs, name, 'b', name, 'a', stale);
  }
}
