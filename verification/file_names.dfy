/** The file-name sanitizer of the build script: every maximal run of
    characters outside `[A-Za-z0-9._-]` becomes a single `-`. */
module FileNames {
  import opened Text

  /** A string every character of which is in the allowed class. */
  predicate IsSafe(s: string) {
    All(s, FileNameChar)
  }

  /** `re.sub(r"[^A-Za-z0-9._-]+", "-", s)`. */
  function Sanitize(s: string): (r: string)
    ensures IsSafe(r)
    ensures |r| <= |s|
    ensures IsSafe(s) ==> r == s
    decreases |s|
  {
    if |s| == 0 then []
    else if IsFileNameChar(s[0]) then [s[0]] + Sanitize(s[1..])
    else
      var rest := DropWhile(s, NotFileNameChar);
      "-" + Sanitize(rest)
  }

  /** An allowed character is copied. */
  lemma SanitizeKeeps(c: char, t: string)
    requires IsFileNameChar(c)
    ensures Sanitize([c] + t) == [c] + Sanitize(t)
  {
    assert ([c] + t)[1..] == t;
  }

  /** An allowed prefix is copied unchanged. */
  lemma {:induction false} SanitizeSafePrefix(a: string, s: string)
    requires IsSafe(a)
    ensures Sanitize(a + s) == a + Sanitize(s)
    decreases |a|
  {
    if a != [] {
      assert a + s == [a[0]] + (a[1..] + s);
      SanitizeKeeps(a[0], a[1..] + s);
      SanitizeSafePrefix(a[1..], s);
      assert a == [a[0]] + a[1..];
    } else {
      assert a + s == s;
    }
  }

  /** A maximal run of disallowed characters becomes one `-`. */
  lemma SanitizeRun(run: string, t: string)
    requires |run| > 0 && All(run, NotFileNameChar)
    requires t == [] || IsFileNameChar(t[0])
    ensures Sanitize(run + t) == "-" + Sanitize(t)
  {
    DropWhileStopsAfterRun(run, t, NotFileNameChar);
  }

  /** Sanitizing a safe part, one disallowed run and a safe part. */
  lemma SanitizeOneRun(a: string, run: string, b: string, s: string)
    requires IsSafe(a) && IsSafe(b) && b != []
    requires |run| > 0 && All(run, NotFileNameChar)
    requires s == a + run + b
    ensures Sanitize(s) == a + "-" + b
  {
    assert s == a + (run + b);
    SanitizeSafePrefix(a, run + b);
    SanitizeRun(run, b);
  }

  /** Sanitizing is idempotent. */
  lemma SanitizeIdempotent(s: string)
    ensures Sanitize(Sanitize(s)) == Sanitize(s)
  {
  }

  /** One piece of a string as the substitution sees it: a single allowed
      character that is copied, or a maximal run of disallowed characters. */
  datatype Piece = Kept(c: char) | Run(cs: string)

  predicate ValidPiece(p: Piece) {
    match p
    case Kept(c) => IsFileNameChar(c)
    case Run(cs) => |cs| > 0 && All(cs, NotFileNameChar)
  }

  /** A decomposition whose runs are maximal: no two runs are adjacent. */
  predicate WellFormed(ps: seq<Piece>) {
    && (forall i :: 0 <= i < |ps| ==> ValidPiece(ps[i]))
    && (forall i :: 0 <= i < |ps| - 1 ==> ps[i].Kept? || ps[i + 1].Kept?)
  }

  /** The text a decomposition covers. */
  function Source(ps: seq<Piece>): string {
    if ps == [] then []
    else
      PieceText(ps[0]) + Source(ps[1..])
  }

  /** The text the substitution should produce: each run becomes one `-`. */
  function Rendered(ps: seq<Piece>): string {
    if ps == [] then []
    else
      (match ps[0] case Kept(c) => [c] case Run(_) => "-") + Rendered(ps[1..])
  }

  /** The text of one piece. */
  function PieceText(p: Piece): string {
    match p
    case Kept(c) => [c]
    case Run(cs) => cs
  }

  lemma ConsPiece(p: Piece, tail: seq<Piece>)
    requires ValidPiece(p) && WellFormed(tail)
    requires p.Kept? || tail == [] || tail[0].Kept?
    ensures WellFormed([p] + tail)
    ensures Source([p] + tail) == PieceText(p) + Source(tail)
  {
    var ps := [p] + tail;
    assert ps[1..] == tail;
    forall i | 0 <= i < |ps| - 1 ensures ps[i].Kept? || ps[i + 1].Kept? {
      if i > 0 { assert ps[i] == tail[i - 1] && ps[i + 1] == tail[i]; }
    }
  }

  /** Every string has a decomposition into kept characters and maximal runs. */
  function Pieces(s: string): (ps: seq<Piece>)
    ensures WellFormed(ps) && Source(ps) == s
    ensures ps != [] ==> (ps[0].Kept? <==> IsFileNameChar(s[0]))
    decreases |s|
  {
    if |s| == 0 then []
    else if IsFileNameChar(s[0]) then
      var tail := Pieces(s[1..]);
      ConsPiece(Kept(s[0]), tail);
      assert [s[0]] + s[1..] == s;
      [Kept(s[0])] + tail
    else
      var rest := DropWhile(s, NotFileNameChar);
      var run := s[..|s| - |rest|];
      var tail := Pieces(rest);
      ConsPiece(Run(run), tail);
      assert run + rest == s;
      [Run(run)] + tail
  }

  /** The substitution replaces each maximal run of disallowed characters
      with exactly one `-` and copies every allowed character. */
  lemma {:induction false} SanitizeRendersPieces(ps: seq<Piece>)
    requires WellFormed(ps)
    ensures Sanitize(Source(ps)) == Rendered(ps)
  {
    if ps != [] {
      var tail := ps[1..];
      assert WellFormed(tail) by {
        forall i | 0 <= i < |tail| - 1 ensures tail[i].Kept? || tail[i + 1].Kept? {
          assert tail[i] == ps[i + 1] && tail[i + 1] == ps[i + 2];
        }
      }
      SanitizeRendersPieces(tail);
      var s := Source(ps);
      match ps[0]
      case Kept(c) =>
        assert s == [c] + Source(tail);
        assert s[1..] == Source(tail);
      case Run(cs) =>
        assert s == cs + Source(tail);
        assert ValidPiece(ps[0]);
        assert Source(tail) == [] || IsFileNameChar(Source(tail)[0]) by {
          if tail != [] {
            assert ps[1].Kept?;
            assert ValidPiece(ps[1]);
          }
        }
        DropWhileStopsAfterRun(cs, Source(tail), NotFileNameChar);
    }
  }

  /** Each piece renders to one character, so the sanitized length is the
      number of pieces. */
  lemma {:induction false} RenderedLength(ps: seq<Piece>)
    ensures |Rendered(ps)| == |ps|
  {
    if ps != [] {
      RenderedLength(ps[1..]);
    }
  }

  /** The output has one character per kept character or run of the input. */
  lemma SanitizeLength(s: string)
    ensures |Sanitize(s)| == |Pieces(s)|
  {
    SanitizeRendersPieces(Pieces(s));
    RenderedLength(Pieces(s));
  }
}
