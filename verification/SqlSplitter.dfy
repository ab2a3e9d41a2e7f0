/**
  The splitter of SQL scripts: comment lines are dropped, then a scanner cuts at the semicolons
  outside quotes.  '\n' is the only line break.
 */
module SqlSplitter {
  import opened PythonText

  // ----- Lines -----

  /** The first line, without its line break, and what follows that. */
  function Head(s: string): string {
    if s == [] || s[0] == '\n' then [] else [s[0]] + Head(s[1..])
  }

  function Tail(s: string): (t: string)
    ensures s != [] ==> |t| < |s|
  {
    if |Head(s)| < |s| then s[|Head(s)| + 1..] else []
  }

  /** str.splitlines */
  function Lines(s: string): seq<string>
    decreases |s|
  {
    if s == [] then [] else [Head(s)] + Lines(Tail(s))
  }

  /** "\n".join */
  function JoinLines(ls: seq<string>): string {
    if ls == [] then []
    else if |ls| == 1 then ls[0]
    else ls[0] + "\n" + JoinLines(ls[1..])
  }

  // ----- What the splitter computes -----

  predicate IsComment(line: string) {
    var s := Strip(line);
    |s| >= 2 && s[0] == '-' && s[1] == '-'
  }

  function Code(ls: seq<string>): seq<string> {
    if ls == [] then []
    else Code(ls[..|ls| - 1]) + if IsComment(ls[|ls| - 1]) then [] else [ls[|ls| - 1]]
  }

  /** The script without its comment lines. */
  function Blob(body: string): string {
    JoinLines(Code(Lines(body)))
  }

  /** The text between the cuts; inQuote says whether the text starts inside a literal. */
  function Pieces(s: string, inQuote: bool): (ps: seq<string>)
    ensures ps != []
  {
    if s == [] then [[]]
    else if s[0] == ';' && !inQuote then [[]] + Pieces(s[1..], false)
    else Prepend([s[0]], Pieces(s[1..], inQuote != (s[0] == '\'')))
  }

  function Prepend(x: string, ps: seq<string>): (r: seq<string>)
    requires ps != []
    ensures r != []
  {
    [x + ps[0]] + ps[1..]
  }

  /** A statement cut off at a semicolon. */
  function Closed(piece: string): seq<string> {
    if Strip(piece) == [] then [] else [Strip(piece) + ";"]
  }

  /** The rest after the last cut. */
  function Rest(piece: string): seq<string> {
    var t := Strip(piece);
    if t == [] then [] else [t + if t[|t| - 1] == ';' then "" else ";"]
  }

  function Statements(ps: seq<string>): seq<string>
    requires ps != []
  {
    if |ps| == 1 then Rest(ps[0]) else Closed(ps[0]) + Statements(ps[1..])
  }

  function Split(body: string): seq<string> {
    Statements(Pieces(Blob(body), false))
  }

  // ----- Comment lines -----

  /** Behind white space the line starts with two dashes. */
  predicate DashesFirst(line: string) {
    exists k :: 0 <= k < |line| - 1 && line[k] == '-' && line[k + 1] == '-' && Spaces(line[..k])
  }

  /** `kept` are, in their order, the lines at the positions `at`, which are those of all lines that do not
      start with two dashes. */
  ghost predicate Keeps(ls: seq<string>, at: seq<nat>, kept: seq<string>) {
    && |at| == |kept|
    && (forall i, j :: 0 <= i < j < |at| ==> at[i] < at[j])
    && (forall i :: 0 <= i < |at| ==> at[i] < |ls| && kept[i] == ls[at[i]])
    && forall k :: 0 <= k < |ls| ==> (k in at <==> !DashesFirst(ls[k]))
  }

  lemma CommentSeenFromLeft(l: string)
    ensures var t := TrimLeft(l); IsComment(l) <==> |t| >= 2 && t[0] == '-' && t[1] == '-'
  {
    var t := TrimLeft(l);
    TrailingFacts(t, |t|);
    assert |t| >= 2 && t[1] == '-' ==> |TrimRight(t)| >= 2;
  }

  lemma CommentExactly(l: string)
    ensures IsComment(l) <==> DashesFirst(l)
  {
    CommentSeenFromLeft(l);
    LeadingFacts(l, 0);
    var n := Leading(l, 0);
    assert TrimLeft(l) == l[n..];
    if IsComment(l) {
      assert l[n] == '-' && l[n + 1] == '-' && Spaces(l[..n]);
    }
    if k :| 0 <= k < |l| - 1 && l[k] == '-' && l[k + 1] == '-' && Spaces(l[..k]) {
      assert forall j :: 0 <= j < k ==> l[..k][j] == l[j] && IsSpace(l[j]);
      assert k == n;
    }
  }

  lemma KeepsNext(ls: seq<string>, at: seq<nat>, kept: seq<string>, l: string)
    requires Keeps(ls, at, kept)
    ensures DashesFirst(l) ==> Keeps(ls + [l], at, kept)
    ensures !DashesFirst(l) ==> Keeps(ls + [l], at + [|ls|], kept + [l])
  {
    if !DashesFirst(l) {
      var at' := at + [|ls|];
      forall k | 0 <= k < |ls| + 1 ensures k in at' <==> !DashesFirst((ls + [l])[k]) {
        assert k in at' <==> k in at || k == |ls|;
      }
    }
  }

  /** The positions determine the lines that are kept. */
  lemma {:induction false} KeepsIsCode(ls: seq<string>, at: seq<nat>, kept: seq<string>)
    requires Keeps(ls, at, kept)
    ensures kept == Code(ls)
  {
    KeepsBound(ls, at, kept);
    if ls != [] {
      var n, m := |ls| - 1, |at| - 1;
      CommentExactly(ls[n]);
      KeepsLast(ls, at, kept);
      if DashesFirst(ls[n]) {
        KeepsIsCode(ls[..n], at, kept);
      } else {
        KeepsIsCode(ls[..n], at[..m], kept[..m]);
      }
    }
  }

  lemma KeepsBound(ls: seq<string>, at: seq<nat>, kept: seq<string>)
    requires Keeps(ls, at, kept)
    ensures (if at == [] then 0 else at[|at| - 1] + 1) <= |ls|
  {
  }

  /** What the last line adds to those kept. */
  lemma KeepsLast(ls: seq<string>, at: seq<nat>, kept: seq<string>)
    requires Keeps(ls, at, kept) && ls != []
    ensures var n, m := |ls| - 1, |at| - 1;
            if DashesFirst(ls[n]) then Keeps(ls[..n], at, kept)
            else m >= 0 && Keeps(ls[..n], at[..m], kept[..m]) && kept == kept[..m] + [ls[n]]
  {
    var n, m := |ls| - 1, |at| - 1;
    KeepsBound(ls, at, kept);
    if DashesFirst(ls[n]) {
      assert n !in at;
    } else {
      assert n in at && at[m] == n;
      FrontOf(at, n);
    }
  }

  lemma FrontOf(at: seq<nat>, n: nat)
    requires at != [] && at[|at| - 1] == n
    ensures forall k :: 0 <= k < n ==> (k in at <==> k in at[..|at| - 1])
  {
    assert at == at[..|at| - 1] + [n];
  }

  // ----- The two loops -----

  method DropComments(body: string) returns (linesOut: seq<string>, ghost at: seq<nat>)
    ensures linesOut == Code(Lines(body)) && Keeps(Lines(body), at, linesOut)
  {
    var lines := Lines(body);
    linesOut, at := [], [];
    for n := 0 to |lines|
      invariant Keeps(lines[..n], at, linesOut)
    {
      assert lines[..n + 1] == lines[..n] + [lines[n]];
      CommentExactly(lines[n]);
      KeepsNext(lines[..n], at, linesOut, lines[n]);
      if !IsComment(lines[n]) {
        linesOut := linesOut + [lines[n]];
        at := at + [n];
      }
    }
    assert lines[..|lines|] == lines;
    KeepsIsCode(lines, at, linesOut);
  }

  /** The pieces still to come, with `buf` already read of the current one. */
  function Remaining(buf: string, blob: string, i: nat, inQuote: bool): (ps: seq<string>)
    requires i <= |blob|
    ensures ps != []
    decreases |blob| - i
  {
    if i == |blob| then [buf]
    else if blob[i] == ';' && !inQuote then [buf] + Remaining([], blob, i + 1, false)
    else Remaining(buf + [blob[i]], blob, i + 1, inQuote != (blob[i] == '\''))
  }

  lemma PrependTwice(x: string, c: char, ps: seq<string>)
    requires ps != []
    ensures Prepend(x, Prepend([c], ps)) == Prepend(x + [c], ps)
  {
    assert x + ([c] + ps[0]) == (x + [c]) + ps[0];
  }

  lemma PrependNothing(ps: seq<string>)
    requires ps != []
    ensures Prepend([], ps) == ps
  {
    assert [] + ps[0] == ps[0] && [ps[0]] + ps[1..] == ps;
  }

  lemma PrependEmpty(buf: string, ps: seq<string>)
    ensures Prepend(buf, [[]] + ps) == [buf] + ps
  {
    assert buf + [] == buf;
  }

  /** Going through the text by position is going through its pieces. */
  lemma {:induction false} RemainingIsPieces(buf: string, blob: string, i: nat, inQuote: bool)
    requires i <= |blob|
    ensures Remaining(buf, blob, i, inQuote) == Prepend(buf, Pieces(blob[i..], inQuote))
    decreases |blob| - i
  {
    if i == |blob| {
      PrependEmpty(buf, []);
    } else {
      assert blob[i..][1..] == blob[i + 1..];
      if blob[i] == ';' && !inQuote {
        RemainingIsPieces([], blob, i + 1, false);
        PrependNothing(Pieces(blob[i + 1..], false));
        PrependEmpty(buf, Pieces(blob[i + 1..], false));
      } else {
        var next := inQuote != (blob[i] == '\'');
        RemainingIsPieces(buf + [blob[i]], blob, i + 1, next);
        PrependTwice(buf, blob[i], Pieces(blob[i + 1..], next));
      }
    }
  }

  lemma AllIsRemaining(blob: string)
    ensures Remaining([], blob, 0, false) == Pieces(blob, false)
  {
    RemainingIsPieces([], blob, 0, false);
    PrependNothing(Pieces(blob, false));
    assert blob[0..] == blob;
  }

  /** Looking ahead at a doubled quote amounts to leaving the literal and entering it again. */
  lemma DoubledQuote(buf: string, blob: string, i: nat)
    requires i + 1 < |blob| && blob[i] == blob[i + 1] == '\''
    ensures Remaining(buf, blob, i, true) == Remaining(buf + "''", blob, i + 2, true)
  {
    assert buf + "'" + "'" == buf + "''";
  }

  lemma Together(a: seq<string>, b: seq<string>, c: seq<string>)
    ensures a + (b + c) == a + b + c
  {
  }

  /** With `stmts` kept, `buf` read of the current piece and the text read up to i, the statements of the
      pieces to come are all that is missing. */
  ghost predicate Scanned(blob: string, stmts: seq<string>, buf: string, i: nat, inQuote: bool) {
    i <= |blob| && stmts + Statements(Remaining(buf, blob, i, inQuote)) == Statements(Pieces(blob, false))
  }

  lemma ScanStart(blob: string)
    ensures Scanned(blob, [], [], 0, false)
  {
    AllIsRemaining(blob);
    assert [] + Statements(Pieces(blob, false)) == Statements(Pieces(blob, false));
  }

  lemma ScanRead(blob: string, stmts: seq<string>, buf: string, i: nat, inQuote: bool)
    requires Scanned(blob, stmts, buf, i, inQuote) && i < |blob| && (blob[i] != ';' || inQuote)
    ensures Scanned(blob, stmts, buf + [blob[i]], i + 1, inQuote != (blob[i] == '\''))
  {
  }

  lemma ScanQuote(blob: string, stmts: seq<string>, buf: string, i: nat, inQuote: bool)
    requires Scanned(blob, stmts, buf, i, inQuote) && i < |blob| && blob[i] == '\''
    ensures Scanned(blob, stmts, buf + "'", i + 1, !inQuote)
  {
    ScanRead(blob, stmts, buf, i, inQuote);
    assert buf + [blob[i]] == buf + "'";
  }

  lemma ScanDoubled(blob: string, stmts: seq<string>, buf: string, i: nat)
    requires Scanned(blob, stmts, buf, i, true) && i + 1 < |blob| && blob[i] == blob[i + 1] == '\''
    ensures Scanned(blob, stmts, buf + "''", i + 2, true)
  {
    DoubledQuote(buf, blob, i);
  }

  lemma ScanCut(blob: string, stmts: seq<string>, buf: string, i: nat)
    requires Scanned(blob, stmts, buf, i, false) && i < |blob| && blob[i] == ';'
    ensures Scanned(blob, stmts + Closed(buf), [], i + 1, false)
  {
    var rest := Remaining([], blob, i + 1, false);
    assert ([buf] + rest)[1..] == rest;
    Together(stmts, Closed(buf), Statements(rest));
  }

  lemma ScanEnd(blob: string, stmts: seq<string>, buf: string, inQuote: bool)
    requires Scanned(blob, stmts, buf, |blob|, inQuote)
    ensures stmts + Rest(buf) == Statements(Pieces(blob, false))
  {
  }

  method AppendClosed(stmts: seq<string>, buf: string) returns (more: seq<string>)
    ensures more == stmts + Closed(buf)
  {
    more := stmts;
    var part := Strip(buf);
    if part != [] {
      more := more + [part + ";"];
    }
  }

  method AppendRest(stmts: seq<string>, buf: string) returns (more: seq<string>)
    ensures more == stmts + Rest(buf)
  {
    more := stmts;
    var tail := Strip(buf);
    if tail != [] {
      more := more + [tail + if tail[|tail| - 1] != ';' then ";" else ""];
    }
  }

  /** The scanner loop. */
  method CutStatements(blob: string) returns (stmts: seq<string>)
    ensures stmts == Statements(Pieces(blob, false))
  {
    stmts := [];
    var buf: string := [];
    var inQuote := false;
    var i := 0;
    ScanStart(blob);
    while i < |blob|
      invariant Scanned(blob, stmts, buf, i, inQuote)
    {
      var c := blob[i];
      if c == '\'' {
        if inQuote {
          if i + 1 < |blob| && blob[i + 1] == '\'' {
            ScanDoubled(blob, stmts, buf, i);
            buf := buf + "''";
            i := i + 2;
            continue;
          }
          ScanQuote(blob, stmts, buf, i, true);
          inQuote := false;
          buf := buf + "'";
          i := i + 1;
          continue;
        }
        ScanQuote(blob, stmts, buf, i, false);
        inQuote := true;
        buf := buf + "'";
        i := i + 1;
        continue;
      }
      if c == ';' && !inQuote {
        ScanCut(blob, stmts, buf, i);
        stmts := AppendClosed(stmts, buf);
        buf := [];
        i := i + 1;
        continue;
      }
      ScanRead(blob, stmts, buf, i, inQuote);
      buf := buf + [c];
      i := i + 1;
    }
    ScanEnd(blob, stmts, buf, inQuote);
    stmts := AppendRest(stmts, buf);
  }

  method SplitSqlStatements(body: string) returns (stmts: seq<string>)
    ensures stmts == Split(body)
    ensures exists at, kept :: Keeps(Lines(body), at, kept) && stmts == Statements(Pieces(JoinLines(kept), false))
  {
    var linesOut, at := DropComments(body);
    var blob := JoinLines(linesOut);
    stmts := CutStatements(blob);
  }

  // ----- Where it cuts -----

  function Quotes(s: string): nat {
    if s == [] then 0 else Quotes(s[..|s| - 1]) + if s[|s| - 1] == '\'' then 1 else 0
  }

  /** A semicolon with an even number of quotes before it. */
  predicate Cut(s: string, j: nat)
    requires j < |s|
  {
    s[j] == ';' && Quotes(s[..j]) % 2 == 0
  }

  function Joined(ps: seq<string>): string
    requires ps != []
  {
    if |ps| == 1 then ps[0] else ps[0] + ";" + Joined(ps[1..])
  }

  /** Position j of the joined text is one of the semicolons between two pieces. */
  predicate Boundary(ps: seq<string>, j: int) {
    |ps| > 1 && (j == |ps[0]| || Boundary(ps[1..], j - |ps[0]| - 1))
  }

  lemma {:induction false} QuotesFront(c: char, s: string)
    ensures Quotes([c] + s) == Quotes(s) + if c == '\'' then 1 else 0
  {
    if s != [] {
      assert ([c] + s)[..|s|] == [c] + s[..|s| - 1];
      QuotesFront(c, s[..|s| - 1]);
    } else {
      assert ([c] + s)[..0] == [];
    }
  }

  lemma JoinedPrepend(x: string, ps: seq<string>)
    requires ps != []
    ensures Joined(Prepend(x, ps)) == x + Joined(ps)
    ensures forall j :: Boundary(Prepend(x, ps), j) <==> Boundary(ps, j - |x|)
  {
    assert Prepend(x, ps)[1..] == ps[1..];
    if |ps| > 1 {
      assert (x + ps[0]) + ";" + Joined(ps[1..]) == x + (ps[0] + ";" + Joined(ps[1..]));
    }
  }

  /** Joining the pieces with semicolons gives the text back: no character is lost or moved. */
  lemma {:induction false} PiecesJoin(s: string, inQuote: bool)
    ensures Joined(Pieces(s, inQuote)) == s
  {
    if s != [] {
      if s[0] == ';' && !inQuote {
        PiecesJoin(s[1..], false);
        assert Pieces(s, inQuote)[1..] == Pieces(s[1..], false);
      } else {
        PiecesJoin(s[1..], inQuote != (s[0] == '\''));
        JoinedPrepend([s[0]], Pieces(s[1..], inQuote != (s[0] == '\'')));
      }
    }
  }

  lemma {:induction false} NoEarlyBoundary(ps: seq<string>, j: int)
    requires j < 0
    ensures !Boundary(ps, j)
  {
    if |ps| > 1 {
      NoEarlyBoundary(ps[1..], j - |ps[0]| - 1);
    }
  }

  /** The quote state of the scanner after s. */
  predicate Inside(s: string, inQuote: bool) {
    if s == [] then inQuote else Inside(s[1..], inQuote != (s[0] == '\''))
  }

  lemma {:induction false} InsideIsOdd(s: string, inQuote: bool)
    ensures Inside(s, inQuote) <==> (Quotes(s) + if inQuote then 1 else 0) % 2 == 1
  {
    if s != [] {
      InsideIsOdd(s[1..], inQuote != (s[0] == '\''));
      assert s == [s[0]] + s[1..];
      QuotesFront(s[0], s[1..]);
    }
  }

  lemma {:induction false} BoundariesFrom(s: string, inQuote: bool, j: nat)
    requires j < |s|
    ensures Boundary(Pieces(s, inQuote), j) <==> s[j] == ';' && !Inside(s[..j], inQuote)
  {
    var next := inQuote != (s[0] == '\'');
    if s[0] == ';' && !inQuote {
      assert Pieces(s, inQuote)[1..] == Pieces(s[1..], false);
    } else {
      JoinedPrepend([s[0]], Pieces(s[1..], next));
      NoEarlyBoundary(Pieces(s[1..], next), -1);
    }
    if j > 0 {
      BoundariesFrom(s[1..], next, j - 1);
      assert s[..j][1..] == s[1..][..j - 1];
    }
  }

  /** The scanner cuts exactly at the semicolons preceded by an even number of quotes. */
  lemma CutsExactly(s: string, j: nat)
    requires j < |s|
    ensures Boundary(Pieces(s, false), j) <==> Cut(s, j)
  {
    BoundariesFrom(s, false, j);
    InsideIsOdd(s[..j], false);
  }

  // ----- What it keeps -----

  /** Texts around which there is white space. */
  predicate Pads(pads: seq<(string, string)>) {
    forall i :: 0 <= i < |pads| ==> Spaces(pads[i].0) && Spaces(pads[i].1)
  }

  function Padded(cores: seq<string>, pads: seq<(string, string)>): seq<string>
    requires |cores| == |pads|
  {
    seq(|cores|, i requires 0 <= i < |cores| => pads[i].0 + cores[i] + pads[i].1)
  }

  /** The texts that are not empty, each terminated; the last may end with a semicolon of its own. */
  function NotEmpty(cores: seq<string>): seq<string> {
    if cores == [] then []
    else if |cores| == 1 then
      if cores[0] == [] then []
      else if cores[0][|cores[0]| - 1] == ';' then cores
      else [cores[0] + ";"]
    else (if cores[0] == [] then [] else [cores[0] + ";"]) + NotEmpty(cores[1..])
  }

  function Cores(ps: seq<string>): seq<string> {
    seq(|ps|, i requires 0 <= i < |ps| => Strip(ps[i]))
  }

  lemma {:induction false} StatementsAreCores(ps: seq<string>)
    requires ps != []
    ensures Statements(ps) == NotEmpty(Cores(ps))
  {
    if |ps| > 1 {
      StatementsAreCores(ps[1..]);
      assert Cores(ps)[1..] == Cores(ps[1..]);
    } else {
      assert Cores(ps) == [Strip(ps[0])];
      var t := Strip(ps[0]);
      assert t + "" == t;
    }
  }

  lemma PiecesArePadded(ps: seq<string>) returns (pads: seq<(string, string)>)
    ensures |pads| == |ps| && Pads(pads) && ps == Padded(Cores(ps), pads)
  {
    pads := [];
    for n := 0 to |ps|
      invariant |pads| == n && Pads(pads)
      invariant forall i :: 0 <= i < n ==> ps[i] == pads[i].0 + Strip(ps[i]) + pads[i].1
    {
      var a, b := StripKeepsCore(ps[n]);
      pads := pads + [(a, b)];
    }
    assert Padded(Cores(ps), pads) == ps;
  }

  /** Every character is kept, in order: the script without its comment lines is the join, by the
      semicolons it is cut at, of trimmed texts with white space around them, and the statements are
      those of the texts that are not empty, each terminated. */
  lemma SplitKeepsCharacters(body: string, at: seq<nat>, kept: seq<string>)
    returns (cores: seq<string>, pads: seq<(string, string)>)
    requires Keeps(Lines(body), at, kept)
    ensures |cores| == |pads| >= 1 && Pads(pads)
    ensures JoinLines(kept) == Joined(Padded(cores, pads))
    ensures forall i :: 0 <= i < |cores| && cores[i] != [] ==>
              !IsSpace(cores[i][0]) && !IsSpace(cores[i][|cores[i]| - 1])
    ensures Split(body) == NotEmpty(cores)
  {
    KeepsIsCode(Lines(body), at, kept);
    var ps := Pieces(JoinLines(kept), false);
    PiecesJoin(JoinLines(kept), false);
    pads := PiecesArePadded(ps);
    cores := Cores(ps);
    StatementsAreCores(ps);
    forall i | 0 <= i < |cores| && cores[i] != []
      ensures !IsSpace(cores[i][0]) && !IsSpace(cores[i][|cores[i]| - 1])
    {
      var _, _ := StripKeepsCore(ps[i]);
    }
  }

  // ----- Round trip -----

  ghost predicate NoComments(ls: seq<string>) {
    forall i {:trigger IsComment(ls[i])} :: 0 <= i < |ls| ==> !IsComment(ls[i])
  }

  /** A statement the splitter keeps as it is: trimmed, not empty, quotes balanced, no semicolon
      outside them, no comment line. */
  ghost predicate Plain(t: string) {
    && t != [] && Strip(t) == t
    && Quotes(t) % 2 == 0
    && (forall j :: 0 <= j < |t| ==> !Cut(t, j))
    && NoComments(Lines(t))
  }

  /** ";\n".join */
  function Script(ss: seq<string>): string {
    if ss == [] then []
    else if |ss| == 1 then ss[0]
    else ss[0] + ";\n" + Script(ss[1..])
  }

  /** How a script may end after its last statement. */
  predicate Ending(end: string) {
    end == "" || end == ";" || end == ";\n"
  }

  // Comment lines.

  lemma ClosedLineIsNoComment(l: string)
    requires !IsComment(l)
    ensures !IsComment(l + ";")
  {
    TrimLeftAppend(l, ';');
    CommentSeenFromLeft(l);
    CommentSeenFromLeft(l + ";");
  }

  // Lines.

  lemma {:induction false} HeadFacts(s: string)
    ensures |Head(s)| <= |s| && Head(s) == s[..|Head(s)|] && '\n' !in Head(s)
    ensures |Head(s)| < |s| ==> s[|Head(s)|] == '\n' && s == Head(s) + ("\n" + Tail(s))
  {
    if s != [] && s[0] != '\n' {
      HeadFacts(s[1..]);
      HeadNext(s);
    }
  }

  lemma HeadNext(s: string)
    requires s != [] && s[0] != '\n' && |Head(s[1..])| <= |s[1..]|
    ensures Head(s) == [s[0]] + Head(s[1..]) && (|Head(s)| < |s| ==> Tail(s) == Tail(s[1..]))
  {
  }

  /** The end of a text, or a line break and more text. */
  predicate EndsLine(x: string) {
    x == [] || x[0] == '\n'
  }

  function After(x: string): string
    requires EndsLine(x)
  {
    if x == [] then [] else x[1..]
  }

  lemma {:induction false} HeadOf(h: string, x: string)
    requires '\n' !in h && EndsLine(x)
    ensures Head(h + x) == h && Tail(h + x) == After(x)
  {
    if h != [] {
      assert (h + x)[1..] == h[1..] + x;
      HeadOf(h[1..], x);
    } else {
      assert h + x == x;
    }
  }

  function CloseLast(ls: seq<string>): seq<string>
    requires ls != []
  {
    if |ls| == 1 then [ls[0] + ";"] else [ls[0]] + CloseLast(ls[1..])
  }

  lemma {:induction false} CloseLastIsNoComment(ls: seq<string>)
    requires ls != [] && NoComments(ls)
    ensures NoComments(CloseLast(ls))
  {
    if |ls| == 1 {
      ClosedLineIsNoComment(ls[0]);
    } else {
      CloseLastIsNoComment(ls[1..]);
    }
  }

  lemma LinesOf(h: string, x: string)
    requires '\n' !in h && EndsLine(x) && (h != [] || x != [])
    ensures Lines(h + x) == [h] + Lines(After(x))
  {
    HeadOf(h, x);
  }

  lemma Regroup(a: string, b: string, c: string, d: string)
    ensures a + b + c + d == a + (b + c + d)
    ensures b != [] ==> (b + c + d)[1..] == b[1..] + c + d
  {
  }

  lemma CloseLastBehind(h: string, ls: seq<string>)
    requires ls != []
    ensures CloseLast([h] + ls) == [h] + CloseLast(ls)
  {
    assert ([h] + ls)[1..] == ls;
  }

  lemma CloseOneLine(t: string, x: string)
    requires '\n' !in t && t != [] && EndsLine(x)
    ensures Lines(t) == [t] && Lines(t + ";" + x) == CloseLast([t]) + Lines(After(x))
  {
    LinesOf(t + ";", x);
    LinesOf(t, []);
    assert t == t + [];
  }

  lemma CloseLaterLine(h: string, m: string, x: string)
    requires '\n' !in h && EndsLine(m) && m != [] && EndsLine(x) && Lines(m[1..]) != []
    requires Lines(m[1..] + ";" + x) == CloseLast(Lines(m[1..])) + Lines(After(x))
    ensures Lines(h + m) == [h] + Lines(m[1..])
    ensures Lines(h + m + ";" + x) == CloseLast(Lines(h + m)) + Lines(After(x))
  {
    Regroup(h, m, ";", x);
    LinesOf(h, m);
    LinesOf(h, m + ";" + x);
    CloseLastBehind(h, Lines(m[1..]));
    Cons(h, CloseLast(Lines(m[1..])), Lines(After(x)));
  }

  lemma Cons(h: string, a: seq<string>, b: seq<string>)
    ensures [h] + (a + b) == ([h] + a) + b
  {
  }

  /** Closing a trimmed text adds ';' to its last line. */
  lemma {:induction false} LinesOfClosed(t: string, x: string)
    requires t != [] && t[|t| - 1] != '\n' && EndsLine(x)
    ensures Lines(t) != [] && Lines(t + ";" + x) == CloseLast(Lines(t)) + Lines(After(x))
    decreases |t|
  {
    var h := Head(t);
    HeadFacts(t);
    if |h| == |t| {
      CloseOneLine(t, x);
    } else {
      var m := t[|h|..];
      assert t == h + m && m[|m| - 1] == t[|t| - 1];
      LinesOfClosed(m[1..], x);
      CloseLaterLine(h, m, x);
    }
  }

  lemma NoCommentsTogether(a: seq<string>, b: seq<string>)
    requires NoComments(a) && NoComments(b)
    ensures NoComments(a + b)
  {
  }

  lemma ClosedHasNoComment(t: string, x: string)
    requires Plain(t) && EndsLine(x) && NoComments(Lines(After(x)))
    ensures NoComments(Lines(t + ";" + x))
  {
    TrimmedEnds(t);
    LinesOfClosed(t, x);
    CloseLastIsNoComment(Lines(t));
    NoCommentsTogether(CloseLast(Lines(t)), Lines(After(x)));
  }

  lemma JoinedLine(a: string, r: string, end: string)
    ensures a + ";\n" + r + end == a + ";" + ("\n" + (r + end))
  {
    assert ";\n" == ";" + "\n";
  }

  lemma FirstLine(ss: seq<string>, end: string)
    requires |ss| > 1
    ensures Script(ss) + end == ss[0] + ";" + ("\n" + (Script(ss[1..]) + end))
  {
    JoinedLine(ss[0], Script(ss[1..]), end);
  }

  lemma LastLine(t: string, end: string)
    requires Ending(end) && end != ""
    ensures t + end == t + ";" + end[1..] && EndsLine(end[1..]) && Lines(After(end[1..])) == []
  {
    assert end == ";" + end[1..];
  }

  lemma {:induction false} ScriptHasNoComment(ss: seq<string>, end: string)
    requires ss != [] && Ending(end) && forall t :: t in ss ==> Plain(t)
    ensures NoComments(Lines(Script(ss) + end))
  {
    assert Plain(ss[0]);
    if |ss| > 1 {
      ScriptHasNoComment(ss[1..], end);
      ClosedHasNoComment(ss[0], "\n" + (Script(ss[1..]) + end));
      FirstLine(ss, end);
    } else if end == [] {
      assert ss[0] + end == ss[0];
    } else {
      LastLine(ss[0], end);
      ClosedHasNoComment(ss[0], end[1..]);
    }
  }

  lemma {:induction false} CodeKeepsAll(ls: seq<string>)
    requires NoComments(ls)
    ensures Code(ls) == ls
  {
    if ls != [] {
      CodeKeepsAll(ls[..|ls| - 1]);
      assert ls == ls[..|ls| - 1] + [ls[|ls| - 1]];
    }
  }

  /** Joining the lines gives the text back without a final line break. */
  lemma {:induction false} JoinOfLines(s: string)
    ensures JoinLines(Lines(s)) == if s != [] && s[|s| - 1] == '\n' then s[..|s| - 1] else s
    decreases |s|
  {
    if s != [] {
      HeadFacts(s);
      JoinOfLines(Tail(s));
      if |Head(s)| < |s| && Tail(s) != [] {
        assert s[|s| - 1] == Tail(s)[|Tail(s)| - 1];
        assert Lines(s)[1..] == Lines(Tail(s));
      }
    }
  }

  // Pieces.

  /** Every semicolon of the text is inside quotes, when it starts inside or outside them. */
  predicate CutFree(t: string, inQuote: bool) {
    t == [] || ((t[0] == ';' ==> inQuote) && CutFree(t[1..], inQuote != (t[0] == '\'')))
  }

  lemma {:induction false} CutFreeFrom(t: string, inQuote: bool)
    requires forall j :: 0 <= j < |t| && t[j] == ';' ==> (Quotes(t[..j]) + if inQuote then 1 else 0) % 2 == 1
    ensures CutFree(t, inQuote)
  {
    if t != [] {
      var u := t[1..];
      assert t[..0] == [];
      forall j | 0 <= j < |u| && u[j] == ';'
        ensures (Quotes(u[..j]) + if inQuote != (t[0] == '\'') then 1 else 0) % 2 == 1
      {
        assert t[..j + 1] == [t[0]] + u[..j] && t[j + 1] == ';';
        QuotesFront(t[0], u[..j]);
      }
      CutFreeFrom(u, inQuote != (t[0] == '\''));
    }
  }

  /** A text without cuts that ends outside quotes is one piece. */
  lemma {:induction false} OnePiece(t: string, inQuote: bool, rest: string)
    requires CutFree(t, inQuote) && (Quotes(t) + if inQuote then 1 else 0) % 2 == 0
    ensures Pieces(t + ";" + rest, inQuote) == [t] + Pieces(rest, false)
  {
    if t == [] {
      assert t + ";" + rest == [';'] + rest;
    } else {
      var u := t[1..];
      assert t == [t[0]] + u;
      QuotesFront(t[0], u);
      assert t + ";" + rest == [t[0]] + (u + ";" + rest);
      OnePiece(u, inQuote != (t[0] == '\''), rest);
      assert Prepend([t[0]], [u] + Pieces(rest, false)) == [t] + Pieces(rest, false);
    }
  }

  lemma {:induction false} LastPiece(t: string, inQuote: bool)
    requires CutFree(t, inQuote)
    ensures Pieces(t, inQuote) == [t]
  {
    if t != [] {
      LastPiece(t[1..], inQuote != (t[0] == '\''));
      assert [t[0]] + t[1..] == t;
    }
  }

  lemma PlainIsCutFree(t: string)
    requires Plain(t)
    ensures CutFree(t, false)
  {
    forall j | 0 <= j < |t| && t[j] == ';' ensures Quotes(t[..j]) % 2 == 1 {
      assert !Cut(t, j);
    }
    CutFreeFrom(t, false);
  }

  lemma PlainHasNoCut(t: string, lead: string)
    requires Plain(t) && (lead == [] || lead == "\n")
    ensures CutFree(lead + t, false) && Quotes(lead + t) % 2 == 0
  {
    PlainIsCutFree(t);
    if lead == [] {
      assert lead + t == t;
    } else {
      assert lead + t == ['\n'] + t && (lead + t)[1..] == t;
      QuotesFront('\n', t);
    }
  }

  lemma PlainStrips(t: string, lead: string)
    requires Plain(t) && (lead == [] || lead == "\n")
    ensures Strip(lead + t) == t && t[|t| - 1] != ';'
  {
    if lead == [] {
      assert lead + t == t;
    } else {
      StripBehindBreak(t);
    }
    assert !Cut(t, |t| - 1);
  }

  /** A plain statement after at most a line break. */
  lemma PlainIsOnePiece(t: string, lead: string, rest: string)
    requires Plain(t) && (lead == [] || lead == "\n")
    ensures Pieces(lead + t + ";" + rest, false) == [lead + t] + Pieces(rest, false)
    ensures Pieces(lead + t, false) == [lead + t]
  {
    PlainHasNoCut(t, lead);
    OnePiece(lead + t, false, rest);
    LastPiece(lead + t, false);
  }

  lemma PlainIsOneStatement(t: string, lead: string, rest: string)
    requires Plain(t) && (lead == [] || lead == "\n")
    ensures Statements(Pieces(lead + t + ";" + rest, false)) == [t + ";"] + Statements(Pieces(rest, false))
    ensures Statements(Pieces(lead + t, false)) == [t + ";"]
  {
    PlainIsOnePiece(t, lead, rest);
    PlainStrips(t, lead);
    assert ([lead + t] + Pieces(rest, false))[1..] == Pieces(rest, false);
  }

  function Terminated(ss: seq<string>): seq<string> {
    seq(|ss|, i requires 0 <= i < |ss| => ss[i] + ";")
  }

  lemma ScriptFirst(ss: seq<string>, lead: string, end: string)
    requires |ss| > 1
    ensures lead + Script(ss) + end == lead + ss[0] + ";" + ("\n" + Script(ss[1..]) + end)
    ensures Terminated(ss) == [ss[0] + ";"] + Terminated(ss[1..])
  {
    RegroupScript(lead, ss[0], Script(ss[1..]), end);
  }

  lemma RegroupScript(lead: string, a: string, r: string, end: string)
    ensures lead + (a + ";\n" + r) + end == lead + a + ";" + ("\n" + r + end)
  {
    assert ";\n" == ";" + "\n";
  }

  lemma LastSplits(t: string, lead: string, end: string)
    requires Plain(t) && (lead == "" || lead == "\n") && (end == "" || end == ";")
    ensures Statements(Pieces(lead + t + end, false)) == [t + ";"]
  {
    PlainIsOneStatement(t, lead, []);
    assert Statements(Pieces([], false)) == [];
    assert lead + t + "" == lead + t;
    assert lead + t + ";" + [] == lead + t + ";";
  }

  lemma {:induction false} ScriptSplits(ss: seq<string>, lead: string, end: string)
    requires ss != [] && forall t :: t in ss ==> Plain(t)
    requires (lead == "" || lead == "\n") && (end == "" || end == ";")
    ensures Statements(Pieces(lead + Script(ss) + end, false)) == Terminated(ss)
  {
    assert Plain(ss[0]);
    if |ss| > 1 {
      ScriptFirst(ss, lead, end);
      PlainIsOneStatement(ss[0], lead, "\n" + Script(ss[1..]) + end);
      ScriptSplits(ss[1..], "\n", end);
    } else {
      LastSplits(ss[0], lead, end);
    }
  }

  lemma {:induction false} ScriptEnd(ss: seq<string>)
    requires ss != [] && forall t :: t in ss ==> Plain(t)
    ensures Script(ss) != [] && Script(ss)[|Script(ss)| - 1] != '\n'
  {
    assert Plain(ss[0]);
    if |ss| > 1 {
      ScriptEnd(ss[1..]);
    } else {
      TrimmedEnds(ss[0]);
    }
  }

  lemma ScriptSplitsAlone(ss: seq<string>, end: string)
    requires ss != [] && (forall t :: t in ss ==> Plain(t)) && (end == "" || end == ";")
    ensures Statements(Pieces(Script(ss) + end, false)) == Terminated(ss)
  {
    ScriptSplits(ss, [], end);
    assert [] + Script(ss) == Script(ss);
  }

  lemma WithoutLastBreak(x: string, end: string)
    requires Ending(end) && x != [] && x[|x| - 1] != '\n'
    ensures var s := x + end;
            (if s[|s| - 1] == '\n' then s[..|s| - 1] else s) == x + if end == "" then "" else ";"
  {
  }

  /** The scanner sees the script without the line break at its end. */
  lemma BlobOfScript(ss: seq<string>, end: string)
    requires ss != [] && Ending(end) && forall t :: t in ss ==> Plain(t)
    ensures Blob(Script(ss) + end) == Script(ss) + if end == "" then "" else ";"
  {
    ScriptHasNoComment(ss, end);
    ScriptEnd(ss);
    BlobOfCode(Script(ss) + end);
    WithoutLastBreak(Script(ss), end);
  }

  lemma BlobOfCode(s: string)
    requires NoComments(Lines(s)) && s != []
    ensures Blob(s) == if s[|s| - 1] == '\n' then s[..|s| - 1] else s
  {
    CodeKeepsAll(Lines(s));
    JoinOfLines(s);
  }

  /** Splitting the join of plain statements gives back exactly those statements, each with its
      terminator, whether or not the script terminates the last one. */
  lemma RoundTrip(ss: seq<string>, end: string)
    requires Ending(end) && (ss == [] ==> end == "") && forall t :: t in ss ==> Plain(t)
    ensures Split(Script(ss) + end) == Terminated(ss)
  {
    if ss == [] {
      return;
    }
    BlobOfScript(ss, end);
    ScriptSplitsAlone(ss, if end == "" then "" else ";");
  }

  // ----- Comment lines do not matter -----

  lemma JoinFirst(a: string, r: string, end: string)
    ensures a + "\n" + r + end == a + ("\n" + (r + end))
    ensures ("\n" + (r + end))[1..] == r + end
  {
  }

  lemma {:induction false} LinesOfJoin(ls: seq<string>, end: string)
    requires ls != [] && forall l :: l in ls ==> '\n' !in l
    requires end == "\n" || (end == "" && ls[|ls| - 1] != [])
    ensures Lines(JoinLines(ls) + end) == ls
  {
    assert ls[0] in ls;
    if |ls| == 1 {
      LinesOf(ls[0], end);
      assert ls == [ls[0]] + [];
    } else {
      var rest := ls[1..];
      LinesOfJoin(rest, end);
      JoinFirst(ls[0], JoinLines(rest), end);
      LinesOf(ls[0], "\n" + (JoinLines(rest) + end));
      assert ls == [ls[0]] + rest;
    }
  }

  lemma {:induction false} LastLineNotEmpty(s: string)
    requires s != [] && s[|s| - 1] != '\n'
    ensures Lines(s) != [] && Lines(s)[|Lines(s)| - 1] != []
    decreases |s|
  {
    HeadFacts(s);
    if |Head(s)| < |s| {
      var t := s[|Head(s)| + 1..];
      assert t == Tail(s) && s[|Head(s)|] == '\n';
      assert t != [] && t[|t| - 1] == s[|s| - 1];
      LastLineNotEmpty(t);
    }
  }

  /** The last line of a commented script is a comment or the last line of the code. */
  lemma LastLineStays(ls: seq<string>, at: seq<nat>, kept: seq<string>)
    requires Keeps(ls, at, kept) && ls != [] && (kept == [] || kept[|kept| - 1] != [])
    ensures ls[|ls| - 1] != []
  {
    var n := |ls| - 1;
    if !DashesFirst(ls[n]) {
      var i :| 0 <= i < |at| && at[i] == n;
      var m := |at| - 1;
      assert at[i] <= at[m];
    }
  }

  /** A script of plain statements with comment lines anywhere between its lines, whatever they hold, splits
      into those statements. */
  lemma RoundTripWithComments(ls: seq<string>, at: seq<nat>, ss: seq<string>, end: string, lastBreak: string)
    requires (end == "" || end == ";") && (ss == [] ==> end == "") && forall t :: t in ss ==> Plain(t)
    requires (forall l :: l in ls ==> '\n' !in l) && Keeps(ls, at, Lines(Script(ss) + end))
    requires lastBreak == "" || (lastBreak == "\n" && ls != [])
    ensures Split(JoinLines(ls) + lastBreak) == Terminated(ss)
  {
    CodeSplits(ss, end);
    BlobWithComments(ls, at, Script(ss) + end, lastBreak);
  }

  lemma CodeSplits(ss: seq<string>, end: string)
    requires (end == "" || end == ";") && (ss == [] ==> end == "") && forall t :: t in ss ==> Plain(t)
    ensures EndsOpen(Script(ss) + end)
    ensures Statements(Pieces(Script(ss) + end, false)) == Terminated(ss)
  {
    if ss == [] {
      assert Script(ss) + end == [];
    } else {
      ScriptEnd(ss);
      ScriptSplitsAlone(ss, end);
      EndsOpenWith(Script(ss), end);
    }
  }

  /** No line break is last. */
  predicate EndsOpen(s: string) {
    s == [] || s[|s| - 1] != '\n'
  }

  lemma EndsOpenWith(x: string, end: string)
    requires x != [] && EndsOpen(x) && (end == "" || end == ";")
    ensures EndsOpen(x + end)
  {
    if end == "" {
      assert x + end == x;
    }
  }

  /** The scanner sees the script as if the comment lines were not there. */
  lemma BlobWithComments(ls: seq<string>, at: seq<nat>, code: string, lastBreak: string)
    requires (forall l :: l in ls ==> '\n' !in l) && Keeps(ls, at, Lines(code))
    requires EndsOpen(code)
    requires lastBreak == "" || (lastBreak == "\n" && ls != [])
    ensures Blob(JoinLines(ls) + lastBreak) == code
  {
    KeepsIsCode(ls, at, Lines(code));
    JoinOfLines(code);
    if code != [] {
      LastLineNotEmpty(code);
    }
    if ls != [] {
      LastLineStays(ls, at, Lines(code));
      LinesOfJoin(ls, lastBreak);
    }
  }
}
