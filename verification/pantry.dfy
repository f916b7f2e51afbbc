/** Turning the command-line ingredient arguments into a pantry (`parse_ingredients`). */
module Pantry {
  import opened Normalize

  /** `str.split(sep)` with an explicit separator, continuing a piece already
      begun. Unlike `str.split()`, empty pieces are kept. */
  function SplitOnFrom(s: string, sep: char, piece: string): (r: seq<string>)
    ensures |r| >= 1
    ensures sep !in piece ==> forall j | 0 <= j < |r| :: sep !in r[j]
    decreases |s|
  {
    if s == [] then [piece]
    else if s[0] == sep then [piece] + SplitOnFrom(s[1..], sep, [])
    else SplitOnFrom(s[1..], sep, piece + [s[0]])
  }

  /** `s.split(sep)`: the pieces between separators, so "a,,b" has three pieces
      and "" has one. */
  function SplitOn(s: string, sep: char): (r: seq<string>)
    ensures |r| >= 1
    ensures forall j | 0 <= j < |r| :: sep !in r[j]
  {
    SplitOnFrom(s, sep, [])
  }

  /** `sep.join(pieces)`. */
  function JoinOn(pieces: seq<string>, sep: char): string
    requires |pieces| >= 1
  {
    if |pieces| == 1 then pieces[0] else pieces[0] + [sep] + JoinOn(pieces[1..], sep)
  }

  lemma {:induction false} JoinOfSplitOnFrom(s: string, sep: char, piece: string)
    ensures JoinOn(SplitOnFrom(s, sep, piece), sep) == piece + s
    decreases |s|
  {
    if s == [] {
      assert piece + s == piece;
    } else if s[0] == sep {
      JoinOfSplitOnFrom(s[1..], sep, []);
      JoinAfterSeparator(s, sep, piece);
    } else {
      JoinOfSplitOnFrom(s[1..], sep, piece + [s[0]]);
      assert piece + [s[0]] + s[1..] == piece + s;
    }
  }

  lemma JoinAfterSeparator(s: string, sep: char, piece: string)
    requires s != [] && s[0] == sep
    requires JoinOn(SplitOnFrom(s[1..], sep, []), sep) == [] + s[1..]
    ensures JoinOn(SplitOnFrom(s, sep, piece), sep) == piece + s
  {
    var x := SplitOnFrom(s[1..], sep, []);
    var ps := [piece] + x;
    assert SplitOnFrom(s, sep, piece) == ps;
    assert ps[0] == piece && ps[1..] == x && |ps| > 1;
    assert JoinOn(ps, sep) == piece + [sep] + s[1..];
    assert s == [sep] + s[1..];
  }

  /** Joining the pieces again with the separator restores the text. */
  lemma SplitOnThenJoin(s: string, sep: char)
    ensures JoinOn(SplitOn(s, sep), sep) == s
  {
    JoinOfSplitOnFrom(s, sep, []);
    assert [] + s == s;
  }

  lemma {:induction false} SplitOnFromSkipsPiece(p: string, t: string, sep: char, piece: string)
    requires sep !in p
    ensures SplitOnFrom(p + t, sep, piece) == SplitOnFrom(t, sep, piece + p)
    decreases |p|
  {
    if p == [] {
      assert p + t == t;
      assert piece + p == piece;
    } else {
      assert (p + t)[0] == p[0];
      assert (p + t)[1..] == p[1..] + t;
      SplitOnFromSkipsPiece(p[1..], t, sep, piece + [p[0]]);
      assert piece + [p[0]] + p[1..] == piece + p;
    }
  }

  /** Splitting a join of separator-free pieces gives the pieces back. */
  lemma {:induction false} JoinThenSplitOn(pieces: seq<string>, sep: char)
    requires |pieces| >= 1
    requires forall j | 0 <= j < |pieces| :: sep !in pieces[j]
    ensures SplitOn(JoinOn(pieces, sep), sep) == pieces
  {
    if |pieces| == 1 {
      SplitOnFromSkipsPiece(pieces[0], [], sep, []);
      assert pieces[0] + [] == pieces[0];
      assert [] + pieces[0] == pieces[0];
      assert pieces == [pieces[0]];
    } else {
      var rest := JoinOn(pieces[1..], sep);
      assert JoinOn(pieces, sep) == pieces[0] + ([sep] + rest);
      SplitOnFromSkipsPiece(pieces[0], [sep] + rest, sep, []);
      assert [] + pieces[0] == pieces[0];
      assert ([sep] + rest)[0] == sep;
      assert ([sep] + rest)[1..] == rest;
      assert SplitOnFrom([sep] + rest, sep, pieces[0]) == [pieces[0]] + SplitOn(rest, sep);
      assert forall j | 0 <= j < |pieces[1..]| :: sep !in pieces[1..][j] by {
        forall j | 0 <= j < |pieces[1..]| ensures sep !in pieces[1..][j] {
          assert pieces[1..][j] == pieces[j + 1];
        }
      }
      JoinThenSplitOn(pieces[1..], sep);
      assert pieces == [pieces[0]] + pieces[1..];
    }
  }

  /** The non-empty normalised forms of some pieces. */
  function PiecePhrases(pieces: seq<string>): (r: set<string>)
    ensures forall p | p in r :: p != [] && IsCanonical(p)
  {
    set piece | piece in pieces && NormalizeToken(piece) != [] :: NormalizeToken(piece)
  }

  /** The phrases one argument contributes: each comma-separated piece, normalised,
      unless it normalises to nothing. */
  function ChunkPhrases(chunk: string): (r: set<string>)
    ensures forall p | p in r :: p != [] && IsCanonical(p)
  {
    PiecePhrases(SplitOn(chunk, ','))
  }

  /** The pantry the arguments describe: the union of their chunks' phrases. */
  function PantryOf(raw: seq<string>): (r: set<string>)
    ensures forall p | p in r :: p != [] && IsCanonical(p)
  {
    if raw == [] then {} else PantryOf(raw[..|raw| - 1]) + ChunkPhrases(raw[|raw| - 1])
  }

  lemma PiecePhrasesStep(pieces: seq<string>, j: nat)
    requires j < |pieces|
    ensures PiecePhrases(pieces[..j + 1]) ==
            PiecePhrases(pieces[..j]) +
            (if NormalizeToken(pieces[j]) != [] then {NormalizeToken(pieces[j])} else {})
  {
    assert pieces[..j + 1] == pieces[..j] + [pieces[j]];
    PiecePhrasesAppend(pieces[..j], [pieces[j]]);
    PiecePhrasesOne(pieces[j]);
  }

  lemma PiecePhrasesOne(piece: string)
    ensures PiecePhrases([piece]) == if NormalizeToken(piece) != [] then {NormalizeToken(piece)} else {}
  {
    assert forall x :: x in [piece] <==> x == piece;
  }

  /** `parse_ingredients`: split every argument on commas, normalise each piece
      and collect the non-empty results in a set. */
  method ParseIngredients(raw: seq<string>) returns (pantry: set<string>)
    ensures pantry == PantryOf(raw)
    ensures [] !in pantry
    ensures forall p | p in pantry :: IsCanonical(p) && NormalizeToken(p) == p
  {
    pantry := {};
    var i := 0;
    while i < |raw|
      invariant 0 <= i <= |raw|
      invariant pantry == PantryOf(raw[..i])
    {
      var pieces := SplitOn(raw[i], ',');
      var added: set<string> := {};
      var j := 0;
      while j < |pieces|
        invariant 0 <= j <= |pieces|
        invariant added == PiecePhrases(pieces[..j])
      {
        var normalized := NormalizeToken(pieces[j]);
        PiecePhrasesStep(pieces, j);
        if normalized != [] {
          added := added + {normalized};
        }
        j := j + 1;
      }
      assert pieces[..j] == pieces;
      pantry := pantry + added;
      PantryOfStep(raw, i);
      i := i + 1;
    }
    assert raw[..i] == raw;
    FixedPoints(pantry);
  }

  lemma PantryOfStep(raw: seq<string>, i: nat)
    requires i < |raw|
    ensures PantryOf(raw[..i + 1]) == PantryOf(raw[..i]) + ChunkPhrases(raw[i])
  {
    assert raw[..i + 1][..i] == raw[..i];
  }

  lemma FixedPoints(pantry: set<string>)
    requires forall p | p in pantry :: IsCanonical(p)
    ensures forall p | p in pantry :: NormalizeToken(p) == p
  {
    forall p | p in pantry
      ensures NormalizeToken(p) == p
    {
      CanonicalIsFixedPoint(p);
    }
  }

  /** Every comma-separated piece of every argument, in order. */
  function AllPieces(raw: seq<string>): seq<string> {
    if raw == [] then [] else AllPieces(raw[..|raw| - 1]) + SplitOn(raw[|raw| - 1], ',')
  }

  /** A piece comes from some argument exactly when it is among all the pieces. */
  lemma {:induction false} AllPiecesMembership(raw: seq<string>, piece: string)
    ensures piece in AllPieces(raw) <==> exists i | 0 <= i < |raw| :: piece in SplitOn(raw[i], ',')
  {
    if raw != [] {
      var n := |raw| - 1;
      AllPiecesMembership(raw[..n], piece);
      assert piece in AllPieces(raw) <==> piece in AllPieces(raw[..n]) || piece in SplitOn(raw[n], ',');
      SomeArgumentSplit(raw, piece);
    }
  }

  lemma SomeArgumentSplit(raw: seq<string>, piece: string)
    requires raw != []
    ensures var n := |raw| - 1;
            (exists i | 0 <= i < |raw| :: piece in SplitOn(raw[i], ','))
            <==> (exists i | 0 <= i < n :: piece in SplitOn(raw[..n][i], ','))
                 || piece in SplitOn(raw[n], ',')
  {
    var n := |raw| - 1;
    if exists i | 0 <= i < n :: piece in SplitOn(raw[..n][i], ',') {
      var i :| 0 <= i < n && piece in SplitOn(raw[..n][i], ',');
      assert raw[i] == raw[..n][i];
    }
    if exists i | 0 <= i < |raw| :: piece in SplitOn(raw[i], ',') {
      var i :| 0 <= i < |raw| && piece in SplitOn(raw[i], ',');
      if i < n {
        assert raw[..n][i] == raw[i];
      }
    }
  }

  /** The pantry is the set of non-empty normal forms of all the pieces. */
  lemma {:induction false} PantryOfAllPieces(raw: seq<string>)
    ensures PantryOf(raw) == PiecePhrases(AllPieces(raw))
  {
    if raw != [] {
      var n := |raw| - 1;
      PantryOfAllPieces(raw[..n]);
      PiecePhrasesAppend(AllPieces(raw[..n]), SplitOn(raw[n], ','));
    }
  }

  lemma PiecePhrasesAppend(a: seq<string>, b: seq<string>)
    ensures PiecePhrases(a + b) == PiecePhrases(a) + PiecePhrases(b)
  {
    assert forall piece :: piece in a + b <==> piece in a || piece in b;
  }

  /** A phrase is in the pantry exactly when some comma-separated piece of some
      argument has a letter or digit and normalises to it. */
  lemma PantryMembership(raw: seq<string>, p: string)
    ensures p in PantryOf(raw) <==>
            exists piece | piece in AllPieces(raw) :: HasAlnum(piece) && NormalizeToken(piece) == p
  {
    PantryOfAllPieces(raw);
    forall piece | piece in AllPieces(raw)
      ensures NormalizeToken(piece) != [] <==> HasAlnum(piece)
    {
      NormalizeEmptyIff(piece);
      HasAlnumIff(piece);
    }
  }
}
