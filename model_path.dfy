/** The model-path grammar of the validator and its tokenizer.

    A path is a sequence of pieces.  Each piece is an identifier followed by a
    separator.  An identifier is either an index `[digits]` or a non-empty run
    of characters other than `.` and `[`.  The separator is either a `.` that
    the piece consumes, or nothing, in which case the next character must be a
    `[` or the end of the path.  The tokens are the identifiers in order, with
    every index collapsed to `[_]`. */
module ModelPath {
  import opened Common

  /** The token every index segment becomes. */
  const PATH_INDEX: string := "[_]"

  predicate IsDigit(c: char) {
    '0' <= c <= '9'
  }

  /** A character that may occur in a name segment. */
  predicate IsNameChar(c: char) {
    c != '.' && c != '['
  }

  /** `[` digits `]`, with at least one digit. */
  predicate IsIndexIdent(x: string) {
    |x| >= 3 && x[0] == '[' && x[|x| - 1] == ']' && forall i :: 1 <= i < |x| - 1 ==> IsDigit(x[i])
  }

  /** A non-empty run without `.` or `[`. */
  predicate IsNameIdent(x: string) {
    |x| >= 1 && forall i :: 0 <= i < |x| ==> IsNameChar(x[i])
  }

  /** What follows an identifier: a consumed `.`, or a look-ahead for `[` or the end. */
  datatype Sep = Dot | Lookahead

  datatype Piece = Piece(ident: string, sep: Sep)

  function SepText(sep: Sep): string {
    if sep == Dot then "." else ""
  }

  /** The text a sequence of pieces spells. */
  function Render(ps: seq<Piece>): string {
    if ps == [] then "" else ps[0].ident + SepText(ps[0].sep) + Render(ps[1..])
  }

  /** Each identifier is an index or a name, and a look-ahead separator is
      followed by the end of the path or by an identifier starting with `[`. */
  predicate WellFormedPieces(ps: seq<Piece>) {
    ps == [] ||
    (&& (IsIndexIdent(ps[0].ident) || IsNameIdent(ps[0].ident))
     && (ps[0].sep == Lookahead && |ps| > 1 ==> ps[1].ident != [] && ps[1].ident[0] == '[')
     && WellFormedPieces(ps[1..]))
  }

  /** The path matches the grammar: some well-formed sequence of pieces spells it. */
  ghost predicate Matches(s: string) {
    exists ps :: WellFormedPieces(ps) && Render(ps) == s
  }

  /** The length of the leading run of digits. */
  function DigitRun(s: string): (n: nat)
    ensures n <= |s|
    ensures forall i :: 0 <= i < n ==> IsDigit(s[i])
    ensures n < |s| ==> !IsDigit(s[n])
  {
    if s == [] || !IsDigit(s[0]) then 0 else 1 + DigitRun(s[1..])
  }

  /** The length of the leading run of name characters. */
  function NameRun(s: string): (n: nat)
    ensures n <= |s|
    ensures forall i :: 0 <= i < n ==> IsNameChar(s[i])
    ensures n < |s| ==> !IsNameChar(s[n])
  {
    if s == [] || !IsNameChar(s[0]) then 0 else 1 + NameRun(s[1..])
  }

  /** The length of the identifier at the start of `s`, or 0 when none starts there. */
  function IdentLength(s: string): (k: nat)
    requires s != []
    ensures k <= |s|
    ensures k > 0 ==> IsIndexIdent(s[..k]) || IsNameIdent(s[..k])
  {
    if s[0] == '[' then
      var d := DigitRun(s[1..]);
      if d > 0 && 1 + d < |s| && s[1 + d] == ']' then d + 2 else 0
    else
      NameRun(s)
  }

  /** The hand-written matcher: the pieces of `s`, or `None` when the grammar rejects it. */
  function Scan(s: string): Option<seq<Piece>>
    decreases |s|, 1
  {
    if s == [] then Some([])
    else
      var k := IdentLength(s);
      if k == 0 then None else ScanAfter(s[..k], s[k..])
  }

  /** The pieces of `head + after`, given that `head` is its first identifier. */
  function ScanAfter(head: string, after: string): Option<seq<Piece>>
    requires head != []
    decreases |head| + |after|, 0
  {
    if after == [] then Some([Piece(head, Lookahead)])
    else if after[0] == '.' then
      match Scan(after[1..])
      case None => None
      case Some(rest) => Some([Piece(head, Dot)] + rest)
    else if after[0] == '[' then
      match Scan(after)
      case None => None
      case Some(rest) => Some([Piece(head, Lookahead)] + rest)
    else None
  }

  /** The token of one captured identifier. */
  function Token(ident: string): string {
    if ident != [] && ident[0] == '[' then PATH_INDEX else ident
  }

  function Tokens(ps: seq<Piece>): (ts: seq<string>)
    ensures |ts| == |ps|
    ensures forall i :: 0 <= i < |ps| ==> ts[i] == Token(ps[i].ident)
  {
    seq(|ps|, i requires 0 <= i < |ps| => Token(ps[i].ident))
  }

  /** The tokens of a model path; an invalid path is an `InvalidPath` failure. */
  function ParseModelPath(path: string): Result<seq<string>> {
    match Scan(path)
    case None => Failure(InvalidPath)
    case Some(ps) => Success(Tokens(ps))
  }

  /** The pieces of a path are its first piece and the pieces of the rest. */
  lemma RenderCons(p: Piece, rest: seq<Piece>)
    ensures Render([p] + rest) == p.ident + SepText(p.sep) + Render(rest)
  {
    assert ([p] + rest)[1..] == rest;
  }

  lemma WellFormedCons(p: Piece, rest: seq<Piece>)
    ensures WellFormedPieces([p] + rest) <==>
      && (IsIndexIdent(p.ident) || IsNameIdent(p.ident))
      && (p.sep == Lookahead && rest != [] ==> rest[0].ident != [] && rest[0].ident[0] == '[')
      && WellFormedPieces(rest)
  {
    var ps := [p] + rest;
    assert ps[0] == p && ps[1..] == rest;
    if rest != [] {
      assert ps[1] == rest[0];
    }
  }

  /** Whatever the matcher returns is a well-formed decomposition of its input. */
  lemma {:induction false} ScanSound(s: string)
    requires Scan(s).Some?
    ensures WellFormedPieces(Scan(s).value) && Render(Scan(s).value) == s
    decreases |s|, 2
  {
    if s != [] {
      var k := IdentLength(s);
      ScanAfterSound(s[..k], s[k..]);
      assert s[..k] + s[k..] == s;
    }
  }

  lemma {:induction false} ScanAfterSound(head: string, after: string)
    requires IsIndexIdent(head) || IsNameIdent(head)
    requires ScanAfter(head, after).Some?
    ensures WellFormedPieces(ScanAfter(head, after).value) && Render(ScanAfter(head, after).value) == head + after
    decreases |head| + |after|, 1
  {
    if after == [] {
      var p := Piece(head, Lookahead);
      RenderCons(p, []);
      WellFormedCons(p, []);
      assert [p] + [] == [p];
    } else if after[0] == '.' {
      ScanSound(after[1..]);
      DotCons(head, after, Scan(after[1..]).value);
    } else {
      ScanSound(after);
      BracketCons(head, after, Scan(after).value);
    }
  }

  /** A consumed dot in front of a well-formed rest. */
  lemma DotCons(head: string, after: string, rest: seq<Piece>)
    requires IsIndexIdent(head) || IsNameIdent(head)
    requires after != [] && after[0] == '.'
    requires WellFormedPieces(rest) && Render(rest) == after[1..]
    ensures WellFormedPieces([Piece(head, Dot)] + rest)
    ensures Render([Piece(head, Dot)] + rest) == head + after
  {
    RenderCons(Piece(head, Dot), rest);
    WellFormedCons(Piece(head, Dot), rest);
    assert after == [after[0]] + after[1..];
  }

  /** A look-ahead for `[` in front of a well-formed rest. */
  lemma BracketCons(head: string, after: string, rest: seq<Piece>)
    requires IsIndexIdent(head) || IsNameIdent(head)
    requires after != [] && after[0] == '['
    requires WellFormedPieces(rest) && Render(rest) == after
    ensures WellFormedPieces([Piece(head, Lookahead)] + rest)
    ensures Render([Piece(head, Lookahead)] + rest) == head + after
  {
    RenderCons(Piece(head, Lookahead), rest);
    FirstChar(rest);
    WellFormedCons(Piece(head, Lookahead), rest);
  }

  /** Every identifier of a well-formed path is an index or a name. */
  lemma {:induction false} WellFormedAt(ps: seq<Piece>, i: nat)
    requires WellFormedPieces(ps) && i < |ps|
    ensures IsIndexIdent(ps[i].ident) || IsNameIdent(ps[i].ident)
    decreases i
  {
    if i > 0 {
      WellFormedAt(ps[1..], i - 1);
    }
  }

  /** A well-formed path starts with the first character of its first identifier. */
  lemma FirstChar(ps: seq<Piece>)
    requires WellFormedPieces(ps)
    ensures ps != [] ==> ps[0].ident != [] && Render(ps) != [] && Render(ps)[0] == ps[0].ident[0]
  {
    if ps != [] {
      assert |ps[0].ident| >= 1;
    }
  }

  lemma DigitRunOf(x: string, y: string)
    requires forall i :: 0 <= i < |x| ==> IsDigit(x[i])
    requires y != [] && !IsDigit(y[0])
    ensures DigitRun(x + y) == |x|
  {
    if x != [] {
      assert (x + y)[1..] == x[1..] + y;
      DigitRunOf(x[1..], y);
    }
  }

  lemma NameRunOf(x: string, y: string)
    requires forall i :: 0 <= i < |x| ==> IsNameChar(x[i])
    requires y == [] || !IsNameChar(y[0])
    ensures NameRun(x + y) == |x|
  {
    if x != [] {
      assert (x + y)[1..] == x[1..] + y;
      NameRunOf(x[1..], y);
    } else {
      assert x + y == y;
    }
  }

  /** An identifier is read back in full when what follows it cannot extend it. */
  lemma IdentLengthOf(x: string, y: string)
    requires IsIndexIdent(x) || IsNameIdent(x)
    requires y == [] || y[0] == '.' || y[0] == '['
    ensures IdentLength(x + y) == |x|
  {
    var s := x + y;
    if IsIndexIdent(x) {
      var digits := x[1..|x| - 1];
      assert s[1..] == digits + ([']'] + y);
      DigitRunOf(digits, [']'] + y);
    } else {
      NameRunOf(x, y);
    }
  }

  /** The text after the first identifier cannot extend it. */
  lemma FollowerOf(p: Piece, rest: seq<Piece>)
    requires WellFormedPieces([p] + rest)
    ensures var after := SepText(p.sep) + Render(rest);
      after == [] || after[0] == '.' || (p.sep == Lookahead && after == Render(rest) && after[0] == '[')
  {
    WellFormedCons(p, rest);
    FirstChar(rest);
  }

  /** Every well-formed decomposition is the one the matcher finds. */
  lemma {:induction false} ScanComplete(ps: seq<Piece>)
    requires WellFormedPieces(ps)
    ensures Scan(Render(ps)) == Some(ps)
    decreases |ps|, 1
  {
    if ps != [] {
      var p := ps[0];
      var rest := ps[1..];
      assert ps == [p] + rest;
      WellFormedCons(p, rest);
      RenderCons(p, rest);
      var after := SepText(p.sep) + Render(rest);
      var s := Render(ps);
      assert s == p.ident + after;
      FollowerOf(p, rest);
      IdentLengthOf(p.ident, after);
      assert s[..|p.ident|] == p.ident && s[|p.ident|..] == after;
      ScanAfterComplete(p, rest);
    }
  }

  lemma {:induction false} ScanAfterComplete(p: Piece, rest: seq<Piece>)
    requires WellFormedPieces([p] + rest)
    ensures p.ident != []
    ensures ScanAfter(p.ident, SepText(p.sep) + Render(rest)) == Some([p] + rest)
    decreases |rest| + 1, 0
  {
    WellFormedCons(p, rest);
    ScanComplete(rest);
    FollowerOf(p, rest);
    var after := SepText(p.sep) + Render(rest);
    if p.sep == Dot {
      assert after[0] == '.' && after[1..] == Render(rest);
      assert p == Piece(p.ident, Dot);
    } else if after == [] {
      assert rest == [] by {
        FirstChar(rest);
      }
      assert [p] + rest == [Piece(p.ident, Lookahead)];
    } else {
      assert p == Piece(p.ident, Lookahead);
    }
  }

  /** The path is accepted exactly when it matches the grammar. */
  lemma ParseAcceptsExactly(s: string)
    ensures ParseModelPath(s).Success? <==> Matches(s)
  {
    if Scan(s).Some? {
      ScanSound(s);
    }
    if Matches(s) {
      var ps :| WellFormedPieces(ps) && Render(ps) == s;
      ScanComplete(ps);
    }
  }

  /** The tokens of a path are its identifiers, every index replaced by `[_]`. */
  lemma ParseTokens(ps: seq<Piece>)
    requires WellFormedPieces(ps)
    ensures ParseModelPath(Render(ps)).Success?
    ensures |ParseModelPath(Render(ps)).value| == |ps|
    ensures forall i :: 0 <= i < |ps| ==>
      && (IsIndexIdent(ps[i].ident) ==> ParseModelPath(Render(ps)).value[i] == PATH_INDEX)
      && (IsNameIdent(ps[i].ident) ==> ParseModelPath(Render(ps)).value[i] == ps[i].ident)
  {
    ScanComplete(ps);
    forall i | 0 <= i < |ps| ensures IsIndexIdent(ps[i].ident) || IsNameIdent(ps[i].ident) {
      WellFormedAt(ps, i);
    }
  }

  /** Only index segments produce `[_]`: a name token never contains `[`. */
  lemma IndexTokenOnlyFromIndex(ps: seq<Piece>, i: nat)
    requires WellFormedPieces(ps) && i < |ps|
    ensures ParseModelPath(Render(ps)).Success? && |ParseModelPath(Render(ps)).value| == |ps|
    ensures ParseModelPath(Render(ps)).value[i] == PATH_INDEX <==> IsIndexIdent(ps[i].ident)
  {
    ParseTokens(ps);
    WellFormedAt(ps, i);
    if IsNameIdent(ps[i].ident) {
      assert ps[i].ident[0] != '[';
      assert PATH_INDEX[0] == '[';
    }
  }

  /** Pieces that agree except for the digits inside indexes. */
  predicate SameUpToIndexDigits(ps: seq<Piece>, qs: seq<Piece>) {
    |ps| == |qs| &&
    forall i :: 0 <= i < |ps| ==>
      ps[i].sep == qs[i].sep &&
      (ps[i].ident == qs[i].ident || (IsIndexIdent(ps[i].ident) && IsIndexIdent(qs[i].ident)))
  }

  /** Paths that differ only in index digits parse to the same tokens. */
  lemma IndexDigitsIrrelevant(ps: seq<Piece>, qs: seq<Piece>)
    requires WellFormedPieces(ps) && WellFormedPieces(qs)
    requires SameUpToIndexDigits(ps, qs)
    ensures ParseModelPath(Render(ps)) == ParseModelPath(Render(qs))
  {
    ScanComplete(ps);
    ScanComplete(qs);
    assert Tokens(ps) == Tokens(qs);
  }

  /** The empty path has no tokens. */
  lemma EmptyPath()
    ensures ParseModelPath("") == Success([])
  {
    assert Render([]) == "";
    ScanComplete([]);
  }

  /** A trailing dot is accepted: `a.` is the single token `a`. */
  lemma TrailingDot()
    ensures ParseModelPath("a.") == Success(["a"])
  {
    var ps := [Piece("a", Dot)];
    RenderCons(ps[0], []);
    assert ps == [ps[0]] + [];
    assert Render(ps) == "a.";
    ScanComplete(ps);
    assert Tokens(ps) == ["a"];
  }

  /** A leading dot and a doubled dot are rejected. */
  lemma DotsRejected()
    ensures ParseModelPath(".a") == Failure(InvalidPath)
    ensures ParseModelPath("a..b") == Failure(InvalidPath)
  {
    assert IdentLength(".a") == 0;
    var s := "a..b";
    assert NameRun(s[1..]) == 0;
    assert IdentLength(s) == 1;
    assert s[1..][1..] == ".b";
    assert IdentLength(".b") == 0;
  }

  /** `Items[0].Name` becomes `Items`, `[_]`, `Name`. */
  lemma IndexedPath()
    ensures ParseModelPath("Items[0].Name") == Success(["Items", PATH_INDEX, "Name"])
  {
    var p0, p1, p2 := Piece("Items", Lookahead), Piece("[0]", Dot), Piece("Name", Lookahead);
    assert IsNameIdent(p0.ident) && IsIndexIdent(p1.ident) && IsNameIdent(p2.ident);
    WellFormedCons(p2, []);
    WellFormedCons(p1, [p2]);
    WellFormedCons(p0, [p1, p2]);
    RenderCons(p2, []);
    RenderCons(p1, [p2]);
    RenderCons(p0, [p1, p2]);
    assert [p2] + [] == [p2];
    assert [p1] + [p2] == [p1, p2];
    assert [p0] + [p1, p2] == [p0, p1, p2];
    assert Render([p0, p1, p2]) == "Items[0].Name";
    ScanComplete([p0, p1, p2]);
    assert Tokens([p0, p1, p2]) == ["Items", PATH_INDEX, "Name"];
  }
}
