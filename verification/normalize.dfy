/** Canonicalisation of free-text ingredient phrases (`normalize_token`).

    Characters are classified over ASCII: a letter or digit is kept (lower-cased),
    a whitespace character is kept, anything else is deleted. Whitespace runs are
    then collapsed to single spaces and the phrase is trimmed.
 */
module Normalize {

  /** The ASCII characters on which `str.isspace` holds and `str.split()` splits:
      space, tab through carriage return (9..13) and the separators 28..31. */
  predicate IsSpace(c: char) {
    c == ' ' || ('\t' <= c <= '\r') || ('\U{1C}' <= c <= '\U{1F}')
  }

  /** ASCII letters and digits (`str.isalnum`). */
  predicate IsAlnum(c: char) {
    ('a' <= c <= 'z') || ('A' <= c <= 'Z') || ('0' <= c <= '9')
  }

  predicate IsUpper(c: char) {
    'A' <= c <= 'Z'
  }

  /** The characters a token of a canonical phrase is made of. */
  predicate IsLowerAlnum(c: char) {
    ('a' <= c <= 'z') || ('0' <= c <= '9')
  }

  /** The characters a canonical phrase is made of. */
  predicate IsPhraseChar(c: char) {
    IsLowerAlnum(c) || c == ' '
  }

  /** A token: a non-empty run of non-whitespace characters, as `str.split()` yields. */
  predicate IsToken(w: string) {
    w != [] && forall k | 0 <= k < |w| :: !IsSpace(w[k])
  }

  /** A token of a canonical phrase. */
  predicate IsLowerToken(w: string) {
    w != [] && forall k | 0 <= k < |w| :: IsLowerAlnum(w[k])
  }

  /** The shape every result of NormalizeToken has: lower-case letters, digits and
      single inner spaces, with no space at either end. */
  predicate IsCanonical(s: string) {
    && (forall k | 0 <= k < |s| :: IsPhraseChar(s[k]))
    && (|s| > 0 ==> s[0] != ' ' && s[|s| - 1] != ' ')
    && (forall k | 0 <= k < |s| - 1 :: !(s[k] == ' ' && s[k + 1] == ' '))
  }

  /** `str.lower` on one ASCII character. */
  function Lower(c: char): (r: char)
    ensures !IsUpper(r)
    ensures IsAlnum(r) <==> IsAlnum(c)
    ensures IsSpace(r) <==> IsSpace(c)
    ensures !IsUpper(c) ==> r == c
  {
    if IsUpper(c) then (c as int + 32) as char else c
  }

  function LowerAll(s: string): (r: string)
    ensures |r| == |s|
    ensures forall k | 0 <= k < |s| :: r[k] == Lower(s[k])
  {
    seq(|s|, k requires 0 <= k < |s| => Lower(s[k]))
  }

  /** Keeps the characters that are alphanumeric or whitespace, in order, and
      deletes every other one (nothing is put in its place). */
  function KeepWordChars(s: string): (r: string)
    ensures |r| <= |s|
    ensures forall k | 0 <= k < |r| :: (IsAlnum(r[k]) || IsSpace(r[k])) && r[k] in s
    ensures (forall k | 0 <= k < |s| :: IsAlnum(s[k]) || IsSpace(s[k])) ==> r == s
  {
    if s == [] then []
    else if IsAlnum(s[0]) || IsSpace(s[0]) then [s[0]] + KeepWordChars(s[1..])
    else KeepWordChars(s[1..])
  }

  /** The `cleaned` string: the input lower-cased with every character that is
      neither alphanumeric nor whitespace removed. */
  function Clean(s: string): (r: string)
    ensures forall k | 0 <= k < |r| :: IsLowerAlnum(r[k]) || IsSpace(r[k])
  {
    KeepWordChars(LowerAll(s))
  }

  /** `str.split()` with no separator, continuing a word already begun. */
  function WordsFrom(s: string, word: string): (r: seq<string>)
    ensures (forall k | 0 <= k < |word| :: !IsSpace(word[k])) ==>
              forall j | 0 <= j < |r| :: IsToken(r[j])
    ensures (forall k | 0 <= k < |word| :: IsLowerAlnum(word[k]))
              && (forall k | 0 <= k < |s| :: IsLowerAlnum(s[k]) || IsSpace(s[k])) ==>
              forall j | 0 <= j < |r| :: IsLowerToken(r[j])
    decreases |s|
  {
    if s == [] then
      (if word == [] then [] else [word])
    else if IsSpace(s[0]) then
      (if word == [] then [] else [word]) + WordsFrom(s[1..], [])
    else
      WordsFrom(s[1..], word + [s[0]])
  }

  /** `str.split()`: the maximal runs of non-whitespace characters. */
  function Words(s: string): (r: seq<string>)
    ensures forall j | 0 <= j < |r| :: IsToken(r[j])
  {
    WordsFrom(s, [])
  }

  /** `" ".join(words)`. */
  function JoinWords(ws: seq<string>): (r: string)
    ensures (forall j | 0 <= j < |ws| :: IsLowerToken(ws[j])) ==> IsCanonical(r)
    ensures (forall j | 0 <= j < |ws| :: IsLowerToken(ws[j])) ==> (r == [] <==> ws == [])
  {
    if ws == [] then []
    else if |ws| == 1 then ws[0]
    else
      var rest := JoinWords(ws[1..]);
      assert (forall j | 0 <= j < |ws| :: IsLowerToken(ws[j])) ==> IsLowerToken(ws[0]) && rest != [] by {
        if forall j | 0 <= j < |ws| :: IsLowerToken(ws[j]) {
          assert forall j | 0 <= j < |ws[1..]| :: IsLowerToken(ws[1..][j]) by {
            forall j | 0 <= j < |ws[1..]| ensures IsLowerToken(ws[1..][j]) {
              assert ws[1..][j] == ws[j + 1];
            }
          }
        }
      }
      ws[0] + " " + rest
  }

  function StripLeading(s: string): (r: string)
    ensures r == [] || !IsSpace(r[0])
    ensures s == [] || !IsSpace(s[0]) ==> r == s
  {
    if s != [] && IsSpace(s[0]) then StripLeading(s[1..]) else s
  }

  function StripTrailing(s: string): (r: string)
    ensures r == [] || !IsSpace(r[|r| - 1])
    ensures r <= s
    ensures s == [] || !IsSpace(s[|s| - 1]) ==> r == s
  {
    if s != [] && IsSpace(s[|s| - 1]) then StripTrailing(s[..|s| - 1]) else s
  }

  /** `str.strip()`: removes whitespace at both ends. */
  function Strip(s: string): (r: string)
    ensures r == [] || (!IsSpace(r[0]) && !IsSpace(r[|r| - 1]))
    ensures s == [] || (!IsSpace(s[0]) && !IsSpace(s[|s| - 1])) ==> r == s
  {
    var t := StripLeading(s);
    var r := StripTrailing(t);
    assert r == [] || !IsSpace(r[0]) by {
      if r != [] {
        assert r[0] == t[0];
      }
    }
    r
  }

  /** `normalize_token`: lower-case, delete characters that are neither
      alphanumeric nor whitespace, split on whitespace, re-join with single
      spaces and strip. */
  function NormalizeToken(value: string): (r: string)
    ensures IsCanonical(r)
  {
    Strip(JoinWords(Words(Clean(value))))
  }

  // ---------------------------------------------------------------------------
  // Splitting and joining are inverse on canonical text
  // ---------------------------------------------------------------------------

  /** A run of non-whitespace characters extends the word being collected. */
  lemma {:induction false} WordsFromSkipsToken(w: string, t: string, word: string)
    requires forall k | 0 <= k < |w| :: !IsSpace(w[k])
    ensures WordsFrom(w + t, word) == WordsFrom(t, word + w)
    decreases |w|
  {
    if w == [] {
      assert w + t == t;
      assert word + w == word;
    } else {
      assert (w + t)[0] == w[0];
      assert (w + t)[1..] == w[1..] + t;
      WordsFromSkipsToken(w[1..], t, word + [w[0]]);
      assert word + [w[0]] + w[1..] == word + w;
    }
  }

  /** Splitting a join of tokens gives back the tokens. */
  lemma {:induction false} WordsOfJoin(ws: seq<string>)
    requires forall j | 0 <= j < |ws| :: IsToken(ws[j])
    ensures Words(JoinWords(ws)) == ws
  {
    if ws == [] {
    } else if |ws| == 1 {
      WordsFromSkipsToken(ws[0], [], []);
      assert ws[0] + [] == ws[0];
      assert [] + ws[0] == ws[0];
      assert ws == [ws[0]];
    } else {
      assert forall j | 0 <= j < |ws[1..]| :: IsToken(ws[1..][j]) by {
        forall j | 0 <= j < |ws[1..]| ensures IsToken(ws[1..][j]) {
          assert ws[1..][j] == ws[j + 1];
        }
      }
      WordsOfJoin(ws[1..]);
      WordsOfJoinStep(ws);
    }
  }

  lemma WordsOfJoinStep(ws: seq<string>)
    requires |ws| >= 2 && IsToken(ws[0])
    requires Words(JoinWords(ws[1..])) == ws[1..]
    ensures Words(JoinWords(ws)) == ws
  {
    var w, rest := ws[0], JoinWords(ws[1..]);
    assert JoinWords(ws) == w + (" " + rest);
    assert Words(w + (" " + rest)) == WordsFrom(" " + rest, w) by {
      WordsAfterToken(w, " " + rest);
    }
    assert WordsFrom(" " + rest, w) == [w] + ws[1..] by {
      WordsFromAfterSpace(rest, w);
    }
    assert ws == [w] + ws[1..];
  }

  lemma WordsAfterToken(w: string, t: string)
    requires IsToken(w)
    ensures Words(w + t) == WordsFrom(t, w)
  {
    WordsFromSkipsToken(w, t, []);
    assert [] + w == w;
  }

  lemma WordsFromAfterSpace(rest: string, w: string)
    requires w != []
    ensures WordsFrom(" " + rest, w) == [w] + Words(rest)
  {
    var t := " " + rest;
    assert t[0] == ' ' && t[1..] == rest;
  }

  /** Joining the words of a canonical tail gives the tail back, prefixed by the
      word already collected. */
  lemma {:induction false} JoinOfWordsFrom(s: string, word: string)
    requires forall k | 0 <= k < |s| :: IsPhraseChar(s[k])
    requires forall k | 0 <= k < |s| - 1 :: !(s[k] == ' ' && s[k + 1] == ' ')
    requires s == [] || s[|s| - 1] != ' '
    requires word != [] || s == [] || s[0] != ' '
    requires forall k | 0 <= k < |word| :: !IsSpace(word[k])
    ensures JoinWords(WordsFrom(s, word)) == word + s
    decreases |s|
  {
    if s == [] {
      assert word + s == word;
    } else if IsSpace(s[0]) {
      assert s[0] == ' ' && |s| >= 2 && s[1..][0] != ' ';
      JoinOfWordsFrom(s[1..], []);
      JoinAfterSpace(s, word);
    } else {
      JoinOfWordsFrom(s[1..], word + [s[0]]);
      assert word + [s[0]] + s[1..] == word + s;
    }
  }

  lemma JoinAfterSpace(s: string, word: string)
    requires |s| >= 2 && s[0] == ' ' && word != []
    requires JoinWords(WordsFrom(s[1..], [])) == [] + s[1..]
    ensures JoinWords(WordsFrom(s, word)) == word + s
  {
    var t := s[1..];
    var x := WordsFrom(t, []);
    assert x != [] by {
      assert JoinWords(x) != [];
    }
    assert WordsFrom(s, word) == [word] + x;
    JoinWordsCons(word, x);
    assert s == [' '] + t;
  }

  /** Joining a word in front of a non-empty list adds it and one space. */
  lemma JoinWordsCons(w: string, ws: seq<string>)
    requires ws != []
    ensures JoinWords([w] + ws) == w + " " + JoinWords(ws)
  {
    var a := [w] + ws;
    assert a[0] == w && a[1..] == ws && |a| > 1;
  }

  /** Lower-casing and filtering leave canonical text unchanged. */
  lemma CleanOfPhraseChars(s: string)
    requires forall k | 0 <= k < |s| :: IsPhraseChar(s[k])
    ensures Clean(s) == s
  {
    assert LowerAll(s) == s;
  }

  /** Canonical phrases are fixed points of NormalizeToken. */
  lemma CanonicalIsFixedPoint(s: string)
    requires IsCanonical(s)
    ensures NormalizeToken(s) == s
  {
    assert Clean(s) == s by {
      CleanOfPhraseChars(s);
    }
    assert JoinWords(Words(s)) == s by {
      JoinOfWordsFrom(s, []);
      assert [] + s == s;
    }
    assert s == [] || (!IsSpace(s[0]) && !IsSpace(s[|s| - 1])) by {
      if s != [] {
        assert IsPhraseChar(s[0]) && IsPhraseChar(s[|s| - 1]);
      }
    }
  }

  /** NormalizeToken fixes exactly the canonical phrases. */
  lemma FixedPointIff(s: string)
    ensures NormalizeToken(s) == s <==> IsCanonical(s)
  {
    if IsCanonical(s) {
      CanonicalIsFixedPoint(s);
    }
  }

  /** Normalising twice is the same as normalising once. */
  lemma NormalizeIdempotent(s: string)
    ensures NormalizeToken(NormalizeToken(s)) == NormalizeToken(s)
  {
    CanonicalIsFixedPoint(NormalizeToken(s));
  }

  /** `str.lower` sends each capital letter to its own small letter. */
  lemma LowerAlphabet()
    ensures forall k | 0 <= k < 26 ::
              Lower("ABCDEFGHIJKLMNOPQRSTUVWXYZ"[k]) == "abcdefghijklmnopqrstuvwxyz"[k]
  {
  }

  /** `split()` cuts at every whitespace character: the words of a text with a
      whitespace character inside are the words before it followed by the words
      after it. */
  lemma WordsAtSpace(a: string, c: char, b: string)
    requires IsSpace(c)
    ensures Words(a + [c] + b) == Words(a) + Words(b)
  {
    WordsFromAtSpace(a, c, b, []);
  }

  lemma {:induction false} WordsFromAtSpace(a: string, c: char, b: string, word: string)
    requires IsSpace(c)
    ensures WordsFrom(a + [c] + b, word) == WordsFrom(a, word) + Words(b)
    decreases |a|
  {
    var head := if word == [] then [] else [word];
    if a == [] {
      assert a + [c] + b == [c] + b;
      assert ([c] + b)[1..] == b;
    } else {
      var s := a + [c] + b;
      assert s[0] == a[0] && s[1..] == a[1..] + [c] + b;
      if IsSpace(a[0]) {
        WordsFromAtSpace(a[1..], c, b, []);
        assert WordsFrom(s, word) == head + (WordsFrom(a[1..], []) + Words(b));
        assert WordsFrom(a, word) == head + WordsFrom(a[1..], []);
      } else {
        WordsFromAtSpace(a[1..], c, b, word + [a[0]]);
      }
    }
  }

  /** A whitespace-free text splits into itself, or into nothing when empty;
      with WordsAtSpace this fixes `split()` on every input. */
  lemma WordsOfRun(w: string)
    requires forall k | 0 <= k < |w| :: !IsSpace(w[k])
    ensures Words(w) == if w == [] then [] else [w]
  {
    if w != [] {
      WordsOfJoin([w]);
    }
  }

  /** The words of the normal form are the words of the cleaned input, in order:
      together with the canonical shape (and JoinOfWordsFrom) this pins the
      output down to the input's own words, lower-cased and single-spaced. */
  lemma NormalizeWords(s: string)
    ensures Words(NormalizeToken(s)) == Words(Clean(s))
  {
    var ws := Words(Clean(s));
    assert forall j | 0 <= j < |ws| :: IsToken(ws[j]);
    var joined := JoinWords(ws);
    assert IsCanonical(joined);
    assert Strip(joined) == joined by {
      if joined != [] {
        assert IsPhraseChar(joined[0]) && IsPhraseChar(joined[|joined| - 1]);
      }
    }
    WordsOfJoin(ws);
  }

  /** Lower-casing first changes nothing: the normal form ignores case. */
  lemma NormalizeIgnoresCase(s: string)
    ensures NormalizeToken(LowerAll(s)) == NormalizeToken(s)
  {
    assert LowerAll(LowerAll(s)) == LowerAll(s) by {
      forall k | 0 <= k < |s| ensures LowerAll(LowerAll(s))[k] == LowerAll(s)[k] {
        assert !IsUpper(Lower(s[k]));
      }
    }
  }

  // ---------------------------------------------------------------------------
  // Which characters survive
  // ---------------------------------------------------------------------------

  lemma {:induction false} KeepWordCharsAppend(x: string, y: string)
    ensures KeepWordChars(x + y) == KeepWordChars(x) + KeepWordChars(y)
    decreases |x|
  {
    if x == [] {
      assert x + y == y;
    } else {
      assert (x + y)[0] == x[0];
      assert (x + y)[1..] == x[1..] + y;
      KeepWordCharsAppend(x[1..], y);
    }
  }

  lemma LowerAllAppend(x: string, y: string)
    ensures LowerAll(x + y) == LowerAll(x) + LowerAll(y)
  {
  }

  /** A character that is neither alphanumeric nor whitespace is deleted: the
      text on its two sides is joined directly, so "sea-salt" reads "seasalt". */
  lemma NormalizeDeletesPunctuation(a: string, c: char, b: string)
    requires !IsAlnum(c) && !IsSpace(c)
    ensures NormalizeToken(a + [c] + b) == NormalizeToken(a + b)
  {
    CleanDeletesPunctuation(a, c, b);
  }

  lemma CleanDeletesPunctuation(a: string, c: char, b: string)
    requires !IsAlnum(c) && !IsSpace(c)
    ensures Clean(a + [c] + b) == Clean(a + b)
  {
    var la, lb := LowerAll(a), LowerAll(b);
    assert LowerAll(a + [c] + b) == la + [c] + lb by {
      LowerAllAppend(a + [c], b);
      LowerAllAppend(a, [c]);
      assert LowerAll([c]) == [c];
    }
    assert LowerAll(a + b) == la + lb by {
      LowerAllAppend(a, b);
    }
    assert KeepWordChars(la + [c] + lb) == KeepWordChars(la) + KeepWordChars(lb) by {
      KeepWordCharsAppend(la + [c], lb);
      KeepWordCharsAppend(la, [c]);
      assert KeepWordChars([c]) == [];
      assert KeepWordChars(la) + [] == KeepWordChars(la);
    }
    assert KeepWordChars(la + lb) == KeepWordChars(la) + KeepWordChars(lb) by {
      KeepWordCharsAppend(la, lb);
    }
  }

  predicate HasAlnum(t: string) {
    t != [] && (IsAlnum(t[0]) || HasAlnum(t[1..]))
  }

  lemma {:induction false} HasAlnumIff(t: string)
    ensures HasAlnum(t) <==> exists k | 0 <= k < |t| :: IsAlnum(t[k])
    decreases |t|
  {
    if t != [] {
      HasAlnumIff(t[1..]);
      if exists k | 0 <= k < |t| :: IsAlnum(t[k]) {
        var k :| 0 <= k < |t| && IsAlnum(t[k]);
        if k > 0 {
          assert IsAlnum(t[1..][k - 1]);
        }
      }
      if HasAlnum(t[1..]) {
        var k :| 0 <= k < |t[1..]| && IsAlnum(t[1..][k]);
        assert t[k + 1] == t[1..][k];
      }
    }
  }

  /** Filtering keeps an alphanumeric character exactly when there was one. */
  lemma {:induction false} KeepWordCharsAlnum(t: string)
    ensures HasAlnum(KeepWordChars(t)) <==> HasAlnum(t)
    decreases |t|
  {
    if t != [] {
      KeepWordCharsAlnum(t[1..]);
      if IsAlnum(t[0]) || IsSpace(t[0]) {
        assert ([t[0]] + KeepWordChars(t[1..]))[1..] == KeepWordChars(t[1..]);
      }
    }
  }

  /** A string yields no words exactly when it is all whitespace and no word is
      pending. */
  lemma {:induction false} WordsFromEmptyIff(s: string, word: string)
    ensures WordsFrom(s, word) == [] <==> word == [] && forall k | 0 <= k < |s| :: IsSpace(s[k])
    decreases |s|
  {
    if s != [] {
      if IsSpace(s[0]) {
        WordsFromEmptyIff(s[1..], []);
      } else {
        WordsFromEmptyIff(s[1..], word + [s[0]]);
      }
      if forall k | 0 <= k < |s[1..]| :: IsSpace(s[1..][k]) {
        forall k | 0 <= k < |s| ensures IsSpace(s[0]) ==> IsSpace(s[k]) {
          if k > 0 {
            assert s[k] == s[1..][k - 1];
          }
        }
      }
    }
  }

  /** NormalizeToken yields the empty phrase exactly when its input holds no
      ASCII letter or digit. */
  lemma NormalizeEmptyIff(s: string)
    ensures NormalizeToken(s) == [] <==> forall k | 0 <= k < |s| :: !IsAlnum(s[k])
  {
    var c := Clean(s);
    var ws := Words(c);
    var j := JoinWords(ws);
    assert Strip(j) == j;
    assert j == [] <==> ws == [];
    WordsFromEmptyIff(c, []);
    KeepWordCharsAlnum(LowerAll(s));
    HasAlnumIff(c);
    HasAlnumIff(LowerAll(s));
    HasAlnumIff(s);
    assert (forall k | 0 <= k < |c| :: IsSpace(c[k])) <==> !HasAlnum(c);
    assert HasAlnum(LowerAll(s)) <==> HasAlnum(s);
  }
}
