/** Character and string operations of the C and C++ run-time libraries that several components share. */
module Text {

  datatype Option<+T> = None | Some(value: T) {
    predicate IsFailure() { None? }

    function PropagateFailure<U>(): Option<U>
      requires None?
    {
      None
    }

    function Extract(): T
      requires Some?
    {
      value
    }
  }

  const NUL: char := '\0'
  const NEWLINE: char := '\n'

  /** The part of a string before its first NUL, which is all that `c_str()` users see. */
  function CStr(s: string): (r: string)
    ensures r <= s && NUL !in r
    ensures |r| < |s| ==> s[|r|] == NUL
    ensures NUL !in s ==> r == s
  {
    if s == "" || s[0] == NUL then "" else [s[0]] + CStr(s[1..])
  }

  /** `tolower` in the "C" locale. */
  function LowerChar(c: char): char {
    if 'A' <= c <= 'Z' then c - 'A' + 'a' else c
  }

  function Lower(s: string): (r: string)
    ensures |r| == |s|
  {
    seq(|s|, i requires 0 <= i < |s| => LowerChar(s[i]))
  }

  /** `_stricmp(a.c_str(), b.c_str()) == 0`. */
  predicate SameIgnoringCase(a: string, b: string) {
    Lower(CStr(a)) == Lower(CStr(b))
  }

  /** The same letter, in any case, or the same other character. */
  predicate SameLetter(a: char, b: char) {
    a == b || ('A' <= a <= 'Z' && b as int == a as int + 32) || ('A' <= b <= 'Z' && a as int == b as int + 32)
  }

  lemma LowerCharIff(a: char, b: char)
    ensures LowerChar(a) == LowerChar(b) <==> SameLetter(a, b)
  {
  }

  /** The comparison ignores the case of the letters A to Z, and nothing else. */
  lemma SameIgnoringCaseIff(a: string, b: string)
    requires NUL !in a && NUL !in b
    ensures SameIgnoringCase(a, b) <==> |a| == |b| && forall i :: 0 <= i < |a| ==> SameLetter(a[i], b[i])
  {
    if |a| == |b| {
      forall i | 0 <= i < |a| ensures Lower(a)[i] == Lower(b)[i] <==> SameLetter(a[i], b[i]) {
        LowerCharIff(a[i], b[i]);
      }
    }
    assert |Lower(a)| == |a| && |Lower(b)| == |b|;
  }

  /** `isspace` in the "C" locale. */
  predicate IsSpace(c: char) {
    c == ' ' || '\t' <= c <= '\r'
  }

  lemma Reassociate(a: string, b: string, c: string)
    ensures a + b + c == a + (b + c)
  {
  }

  /** The pieces that repeated `std::getline` calls read: a delimiter at the end does not start another one. */
  function Pieces(s: string, delim: char): (pieces: seq<string>) {
    if s == "" then []
    else
      var n := PieceLength(s, delim);
      if n == |s| then [s] else [s[..n]] + Pieces(s[n + 1..], delim)
  }

  function PieceLength(s: string, delim: char): (n: nat)
    ensures n <= |s| && delim !in s[..n]
    ensures n < |s| ==> s[n] == delim
  {
    if s == "" || s[0] == delim then 0 else 1 + PieceLength(s[1..], delim)
  }

  function Lines(s: string): (lines: seq<string>) {
    Pieces(s, NEWLINE)
  }

  /** Reading stops at the first delimiter, so a piece without one comes back whole. */
  lemma {:induction false} FirstPiece(piece: string, delim: char, rest: string)
    requires delim !in piece
    ensures Pieces(piece + [delim] + rest, delim) == [piece] + Pieces(rest, delim)
  {
    var s := piece + [delim] + rest;
    PieceLengthOf(piece, delim, rest);
    assert s[..|piece|] == piece && s[|piece| + 1..] == rest;
  }

  lemma {:induction false} PieceLengthOf(piece: string, delim: char, rest: string)
    requires delim !in piece
    ensures PieceLength(piece + [delim] + rest, delim) == |piece|
  {
    var s := piece + [delim] + rest;
    if piece == "" {
      assert s[0] == delim;
    } else {
      PieceLengthOf(piece[1..], delim, rest);
      assert s[0] == piece[0] && s[1..] == piece[1..] + [delim] + rest;
    }
  }

  lemma LastPiece(piece: string, delim: char)
    requires delim !in piece
    ensures Pieces(piece, delim) == if piece == "" then [] else [piece]
  {
  }

  lemma FirstLine(line: string, rest: string)
    requires NEWLINE !in line
    ensures Lines(line + "\n" + rest) == [line] + Lines(rest)
  {
    FirstPiece(line, NEWLINE, rest);
  }

  /** Every character of a piece is one of the text, and not the delimiter. */
  lemma {:induction false} PiecesAreClean(s: string, delim: char)
    ensures forall piece <- Pieces(s, delim) :: forall c <- piece :: c in s && c != delim
  {
    if s != "" {
      var n := PieceLength(s, delim);
      if n == |s| {
        assert s[..n] == s;
      } else {
        PiecesAreClean(s[n + 1..], delim);
        forall piece | piece in Pieces(s, delim) ensures forall c <- piece :: c in s && c != delim {
          assert piece == s[..n] || piece in Pieces(s[n + 1..], delim);
        }
      }
    }
  }

  /** No line that is read contains a newline. */
  lemma LinesHaveNoNewline(s: string)
    ensures forall line <- Lines(s) :: NEWLINE !in line
  {
    PiecesAreClean(s, NEWLINE);
  }
}
