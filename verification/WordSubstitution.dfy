/**
 The word-boundary substitution that the rename verifier applies to identifiers: a match of the
 sought name counts when neither neighbour is an ASCII letter or digit, so `_` separates words.
 The main result says exactly when substituting backwards undoes substituting forwards.
 */
module WordSubstitution {
  import opened Sequences

  type Identifier = s: string | |s| > 0 witness "x"

  predicate IsAlnum(c: char) {
    'A' <= c <= 'Z' || 'a' <= c <= 'z' || '0' <= c <= '9'
  }

  /** `s` begins with `word`, and no letter or digit follows. */
  predicate Begins(s: string, word: string) {
    word <= s && (|s| == |word| || !IsAlnum(s[|word|]))
  }

  lemma BeginsStep(c: char, s: string, word: string)
    requires word != ""
    ensures Begins([c] + s, word) <==> word[0] == c && Begins(s, word[1..])
  {
    assert word == [word[0]] + word[1..];
    assert |s| >= |word| - 1 ==> ([c] + s)[..|word|] == [c] + s[..|word| - 1];
    assert |s| >= |word| ==> ([c] + s)[|word|] == s[|word| - 1];
  }

  /** Whether `word` is matched at the start of `s`, given whether an alphanumeric precedes `s`. */
  predicate StartsWord(prev: bool, s: string, word: Identifier) {
    !prev && Begins(s, word)
  }

  predicate HasWord(prev: bool, s: string, word: Identifier)
    decreases |s|
  {
    s != "" && (StartsWord(prev, s, word) || HasWord(IsAlnum(s[0]), s[1..], word))
  }

  /** Leftmost, non-overlapping replacement of the word `from` by `to`. */
  function Substitute(prev: bool, s: string, from: Identifier, to: string): string
    decreases |s|
  {
    if s == "" then ""
    else if StartsWord(prev, s, from) then
      to + Substitute(IsAlnum(Last(from)), s[|from|..], from, to)
    else
      [s[0]] + Substitute(IsAlnum(s[0]), s[1..], from, to)
  }

  /** The substitution as the verifier calls it: with equal names it is switched off. */
  function Rename(s: string, from: Identifier, to: Identifier): string {
    if from == to then s else Substitute(false, s, from, to)
  }

  // ---- Texts as pieces --------------------------------------------------------------------

  /** An identifier cut into untouched characters and renamed words. */
  datatype Piece = Kept(c: char) | Renamed

  function SpellPiece(piece: Piece, name: Identifier): (t: string)
    ensures t != ""
  {
    match piece case Kept(c) => [c] case Renamed => name
  }

  function Spell(ps: seq<Piece>, name: Identifier): string {
    if ps == [] then "" else SpellPiece(ps[0], name) + Spell(ps[1..], name)
  }

  lemma {:induction false} SpellSnoc(ps: seq<Piece>, name: Identifier)
    requires ps != []
    ensures Spell(ps, name) == Spell(Init(ps), name) + SpellPiece(Last(ps), name)
    decreases |ps|
  {
    var init := Init(ps);
    if init == [] {
      assert ps[1..] == [];
    } else {
      SpellSnoc(ps[1..], name);
      assert ps[1..][..|ps| - 2] == init[1..];
    }
  }

  lemma SpellsNothing(ps: seq<Piece>, name: Identifier)
    ensures Spell(ps, name) == "" <==> ps == []
  {}

  function Cut(prev: bool, s: string, word: Identifier): (ps: seq<Piece>)
    decreases |s|
  {
    if s == "" then []
    else if StartsWord(prev, s, word) then
      [Renamed] + Cut(IsAlnum(Last(word)), s[|word|..], word)
    else
      [Kept(s[0])] + Cut(IsAlnum(s[0]), s[1..], word)
  }

  lemma {:induction false} CutSpells(prev: bool, s: string, from: Identifier, to: Identifier)
    ensures var ps := Cut(prev, s, from);
            && Spell(ps, from) == s
            && Spell(ps, to) == Substitute(prev, s, from, to)
    decreases |s|
  {
    var ps := Cut(prev, s, from);
    if s == "" {
    } else if StartsWord(prev, s, from) {
      CutSpells(IsAlnum(Last(from)), s[|from|..], from, to);
      assert ps[1..] == Cut(IsAlnum(Last(from)), s[|from|..], from);
    } else {
      CutSpells(IsAlnum(s[0]), s[1..], from, to);
      assert ps[1..] == Cut(IsAlnum(s[0]), s[1..], from);
    }
  }

  // ---- The inverse law ---------------------------------------------------------------------

  /** A name that starts or ends with a letter or digit; two of them never touch as words. */
  predicate Anchored(w: Identifier) {
    IsAlnum(w[0]) || IsAlnum(Last(w))
  }

  /** After the rename of `s`, no untouched position of `s` begins an occurrence of `new`:
      the new name can be read only where the rename wrote it.  `p` and `q` say whether an
      alphanumeric precedes `s` before and after the rename. */
  predicate OnlyWhereWritten(p: bool, q: bool, s: string, old': Identifier, new': Identifier)
    decreases |s|
  {
    s == "" ||
    if StartsWord(p, s, old') then
      OnlyWhereWritten(IsAlnum(Last(old')), IsAlnum(Last(new')), s[|old'|..], old', new')
    else
      && !StartsWord(q, Substitute(p, s, old', new'), new')
      && OnlyWhereWritten(IsAlnum(s[0]), IsAlnum(s[0]), s[1..], old', new')
  }

  /** An occurrence of the new name at an untouched position always shows up in the result. */
  lemma {:induction false} SpuriousMatchIsSeen(p: bool, s: string, old': Identifier, new': Identifier)
    requires s != "" && !StartsWord(p, s, old')
    requires StartsWord(p, Substitute(p, s, old', new'), new')
    ensures Substitute(p, Substitute(p, s, old', new'), new', old') != s
  {
    var f := Substitute(p, s, old', new');
    var q' := IsAlnum(Last(new'));
    var tail := f[|new'|..];
    var back := Substitute(q', tail, new', old');
    assert Substitute(p, f, new', old') == old' + back;
    assert f[0] == s[0] && f[0] == new'[0] && (old' + back)[0] == old'[0];
    assert tail != "" ==> tail[0] == f[|new'|];
    assert (old' + back)[|old'|..] == back;
  }

  /** How the two renames continue after a match of the old name. */
  lemma AfterMatch(p: bool, s: string, old': Identifier, new': Identifier)
    requires s != "" && StartsWord(p, s, old')
    ensures var p', q', rest := IsAlnum(Last(old')), IsAlnum(Last(new')), s[|old'|..];
            var f, f' := Substitute(p, s, old', new'), Substitute(p', rest, old', new');
            && f == new' + f' && s == old' + rest
            && (rest != "" ==> !IsAlnum(rest[0]))
            && (StartsWord(p, f, new') ==>
                  && Substitute(p, f, new', old') == old' + Substitute(q', f', new', old')
                  && (Substitute(p, f, new', old') == s <==> Substitute(q', f', new', old') == rest))
            && (rest != "" && !StartsWord(p', rest, old') ==> StartsWord(p, f, new'))
            && (rest == "" || !Anchored(new') ==> StartsWord(p, f, new'))
  {
    var p', q', rest := IsAlnum(Last(old')), IsAlnum(Last(new')), s[|old'|..];
    var f, f' := Substitute(p, s, old', new'), Substitute(p', rest, old', new');
    assert f[|new'|..] == f';
    assert rest != "" ==> rest[0] == s[|old'|];
    assert f' != "" ==> f[|new'|] == f'[0];
    var back := Substitute(q', f', new', old');
    assert (old' + back)[|old'|..] == back;
  }

  /** Both names are anchored, or neither is, as when one dunder name replaces another. */
  predicate Alike(old': Identifier, new': Identifier) {
    Anchored(old') == Anchored(new')
  }

  /** Two matches of the old name follow each other without a character between them, and their
      replacements by an anchored name would merge. */
  predicate Merges(p: bool, s: string, old': Identifier, new': Identifier)
    decreases |s|
  {
    s != "" &&
    if StartsWord(p, s, old') then
      var p', rest := IsAlnum(Last(old')), s[|old'|..];
      (Anchored(new') && StartsWord(p', rest, old')) || Merges(p', rest, old', new')
    else
      Merges(IsAlnum(s[0]), s[1..], old', new')
  }

  /** For all names: if no replacements merge and the new name is read only where it was written,
      the inverse law holds. */
  lemma {:induction false} InverseIfNothingMerges(p: bool, q: bool, s: string, old': Identifier, new': Identifier)
    requires p == q || s == "" || !StartsWord(p, s, old')
    requires OnlyWhereWritten(p, q, s, old', new') && !Merges(p, s, old', new')
    ensures Substitute(q, Substitute(p, s, old', new'), new', old') == s
    decreases |s|
  {
    var f := Substitute(p, s, old', new');
    if s == "" {
    } else if StartsWord(p, s, old') {
      AfterMatch(p, s, old', new');
      InverseIfNothingMerges(IsAlnum(Last(old')), IsAlnum(Last(new')), s[|old'|..], old', new');
    } else {
      assert f[0] == s[0] && f[1..] == Substitute(IsAlnum(s[0]), s[1..], old', new');
      InverseIfNothingMerges(IsAlnum(s[0]), IsAlnum(s[0]), s[1..], old', new');
      assert s == [s[0]] + s[1..];
    }
  }

  /** For names that are alike the only obstacle is a new name that shows up unwritten. */
  lemma {:induction false} AlikeInverse(p: bool, q: bool, s: string, old': Identifier, new': Identifier)
    requires Alike(old', new')
    requires p == q || s == "" || (!IsAlnum(s[0]) && !StartsWord(p, s, old')
                                   && !StartsWord(q, Substitute(p, s, old', new'), new'))
    ensures Substitute(q, Substitute(p, s, old', new'), new', old') == s
        ==> OnlyWhereWritten(p, q, s, old', new')
    decreases |s|
  {
    var f := Substitute(p, s, old', new');
    if s == "" {
    } else if StartsWord(p, s, old') {
      AfterMatch(p, s, old', new');
      AlikeInverse(IsAlnum(Last(old')), IsAlnum(Last(new')), s[|old'|..], old', new');
    } else if StartsWord(q, f, new') {
      SpuriousMatchIsSeen(p, s, old', new');
    } else {
      assert f[0] == s[0] && f[1..] == Substitute(IsAlnum(s[0]), s[1..], old', new');
      AlikeInverse(IsAlnum(s[0]), IsAlnum(s[0]), s[1..], old', new');
      assert s == [s[0]] + s[1..];
    }
  }

  /** Only an unanchored name that is replaced by an anchored one can merge. */
  lemma {:induction false} NeverMerges(p: bool, s: string, old': Identifier, new': Identifier)
    requires Anchored(old') || !Anchored(new')
    ensures !Merges(p, s, old', new')
    decreases |s|
  {
    if s == "" {
    } else if StartsWord(p, s, old') {
      assert |s| > |old'| ==> s[|old'|..][0] == s[|old'|];
      NeverMerges(IsAlnum(Last(old')), s[|old'|..], old', new');
    } else {
      NeverMerges(IsAlnum(s[0]), s[1..], old', new');
    }
  }

  lemma EqualStarts(u: string, a: string, v: string, b: string)
    requires u != "" && v != "" && u + a == v + b
    ensures u[0] == v[0] && (|u| == |v| ==> u == v && a == b)
  {
    assert (u + a)[0] == u[0] && (v + b)[0] == v[0];
    assert (u + a)[|u|..] == a && (v + b)[|v|..] == b;
  }

  lemma EqualEnds(a: string, u: string, b: string, v: string)
    requires u != "" && v != "" && a + u == b + v
    ensures Last(u) == Last(v) && (|u| == |v| ==> a == b && u == v)
  {
    var t := a + u;
    assert Last(t) == Last(u) && Last(t) == Last(v);
    assert t[..|a|] == a && t[..|b|] == b;
  }

  lemma FirstPiecesAgree(a: Piece, b: Piece, x: Identifier, y: Identifier,
                         ax: string, bx: string, ay: string, by': string)
    requires x[0] != y[0]
    requires SpellPiece(a, x) + ax == SpellPiece(b, x) + bx && SpellPiece(a, y) + ay == SpellPiece(b, y) + by'
    ensures a == b && ax == bx && ay == by'
  {
    EqualStarts(SpellPiece(a, x), ax, SpellPiece(b, x), bx);
    EqualStarts(SpellPiece(a, y), ay, SpellPiece(b, y), by');
  }

  lemma LastPiecesAgree(a: Piece, b: Piece, x: Identifier, y: Identifier,
                        ax: string, bx: string, ay: string, by': string)
    requires Last(x) != Last(y)
    requires ax + SpellPiece(a, x) == bx + SpellPiece(b, x) && ay + SpellPiece(a, y) == by' + SpellPiece(b, y)
    ensures a == b && ax == bx && ay == by'
  {
    EqualEnds(ax, SpellPiece(a, x), bx, SpellPiece(b, x));
    EqualEnds(ay, SpellPiece(a, y), by', SpellPiece(b, y));
  }

  /** When two names start differently, or end differently, a text and its rename determine where
      the name was replaced. */
  lemma {:induction false} SpellingsDetermine(a: seq<Piece>, b: seq<Piece>, x: Identifier, y: Identifier)
    requires x[0] != y[0] || Last(x) != Last(y)
    requires Spell(a, x) == Spell(b, x) && Spell(a, y) == Spell(b, y)
    ensures a == b
    decreases |a|
  {
    if a == [] || b == [] {
      SpellsNothing(a, x);
      SpellsNothing(b, x);
    } else if x[0] != y[0] {
      FirstPiecesAgree(a[0], b[0], x, y, Spell(a[1..], x), Spell(b[1..], x), Spell(a[1..], y), Spell(b[1..], y));
      SpellingsDetermine(a[1..], b[1..], x, y);
    } else {
      SpellSnoc(a, x);
      SpellSnoc(a, y);
      SpellSnoc(b, x);
      SpellSnoc(b, y);
      var a', b' := Init(a), Init(b);
      LastPiecesAgree(Last(a), Last(b), x, y, Spell(a', x), Spell(b', x), Spell(a', y), Spell(b', y));
      SpellingsDetermine(a', b', x, y);
    }
  }

  /** If the rename and its reverse replace at the same places, the exact condition holds. */
  lemma {:induction false} SameCut(p: bool, q: bool, s: string, old': Identifier, new': Identifier)
    requires Cut(q, Substitute(p, s, old', new'), new') == Cut(p, s, old')
    ensures OnlyWhereWritten(p, q, s, old', new') && !Merges(p, s, old', new')
    decreases |s|
  {
    var f := Substitute(p, s, old', new');
    var there, back := Cut(p, s, old'), Cut(q, f, new');
    if s == "" {
    } else if StartsWord(p, s, old') {
      AfterMatch(p, s, old', new');
      var p', q', rest := IsAlnum(Last(old')), IsAlnum(Last(new')), s[|old'|..];
      var f' := Substitute(p', rest, old', new');
      assert there[0] == Renamed && back[0] == Renamed && f[|new'|..] == f';
      assert there[1..] == Cut(p', rest, old') && back[1..] == Cut(q', f', new');
      if rest != "" && StartsWord(p', rest, old') {
        assert Cut(q', f', new')[0] == Renamed;
        assert f[|new'|] == f'[0] == new'[0];
      }
      SameCut(p', q', rest, old', new');
    } else {
      assert there[0] == Kept(s[0]) && back[0] == Kept(s[0]);
      assert f[1..] == Substitute(IsAlnum(s[0]), s[1..], old', new');
      assert there[1..] == Cut(IsAlnum(s[0]), s[1..], old') && back[1..] == Cut(IsAlnum(s[0]), f[1..], new');
      SameCut(IsAlnum(s[0]), IsAlnum(s[0]), s[1..], old', new');
    }
  }

  /** Renaming forth and back is the identity on `s` exactly when the renamed text shows the new
      name nowhere but at the renamed places, and no two of these merge. */
  lemma InverseExactly(p: bool, s: string, old': Identifier, new': Identifier)
    ensures Substitute(p, Substitute(p, s, old', new'), new', old') == s
       <==> OnlyWhereWritten(p, p, s, old', new') && !Merges(p, s, old', new')
  {
    var f := Substitute(p, s, old', new');
    if OnlyWhereWritten(p, p, s, old', new') && !Merges(p, s, old', new') {
      InverseIfNothingMerges(p, p, s, old', new');
    } else if Alike(old', new') {
      AlikeInverse(p, p, s, old', new');
      NeverMerges(p, s, old', new');
    } else if Substitute(p, f, new', old') == s {
      CutSpells(p, s, old', new');
      CutSpells(p, f, new', old');
      SpellingsDetermine(Cut(p, s, old'), Cut(p, f, new'), old', new');
      SameCut(p, p, s, old', new');
    }
  }

  /** The new name can be read in the renamed text only where the rename wrote it, and no two of
      the places merge. */
  predicate Restorable(s: string, old': Identifier, new': Identifier) {
    OnlyWhereWritten(false, false, s, old', new') && !Merges(false, s, old', new')
  }

  /** Renaming forth and back as the verifier does it, for any two different names. */
  lemma RenameInverse(s: string, old': Identifier, new': Identifier)
    requires old' != new'
    ensures Rename(Rename(s, old', new'), new', old') == s <==> Restorable(s, old', new')
  {
    InverseExactly(false, s, old', new');
  }

  // ---- When the condition holds ------------------------------------------------------------

  predicate OverlapsAt(w: Identifier, k: nat)
    requires 0 < k < |w|
  {
    !IsAlnum(w[k - 1]) && !IsAlnum(w[|w| - k]) && w[k..] == w[..|w| - k]
  }

  /** A second copy of `w` can start, as a word, strictly inside a first one. */
  ghost predicate OverlapsItself(w: Identifier) {
    exists k :: 0 < k < |w| && OverlapsAt(w, k)
  }

  predicate Plain(w: Identifier) {
    forall i :: 0 <= i < |w| ==> IsAlnum(w[i])
  }

  lemma PlainNamesAreSimple(w: Identifier)
    requires Plain(w)
    ensures Anchored(w) && !OverlapsItself(w)
  {}

  lemma {:induction false} NoWordInSuffix(p: bool, s: string, k: nat, w: Identifier)
    requires 0 < k <= |s| && !HasWord(p, s, w)
    ensures !HasWord(IsAlnum(s[k - 1]), s[k..], w)
    decreases k
  {
    if k > 1 {
      NoWordInSuffix(IsAlnum(s[0]), s[1..], k - 1, w);
      assert s[1..][k - 1..] == s[k..];
    }
  }

  /** A text that goes on with the rest of a word, and then with the word, overlaps it. */
  lemma SecondCopyOverlaps(w: Identifier, k: nat, rest: string)
    requires 0 < k < |w| && !IsAlnum(w[k - 1]) && Begins(w + rest, w[k..])
    ensures OverlapsAt(w, k)
  {
    assert w[k..] == (w + rest)[..|w| - k] == w[..|w| - k];
  }

  /** If the renamed text goes on with the last |new|-k characters of the new name and then ends
      the word, the original text went on in the same way. */
  lemma {:induction false} PeelUntouched(p: bool, s: string, k: nat, old': Identifier, new': Identifier)
    requires (Anchored(new') || !Anchored(old')) && !OverlapsItself(new')
    requires 0 < k <= |new'| && p == IsAlnum(new'[k - 1])
    requires Begins(Substitute(p, s, old', new'), new'[k..])
    ensures Begins(s, new'[k..])
    decreases |s|
  {
    if s == "" {
    } else if StartsWord(p, s, old') {
      if k < |new'| {
        SecondCopyOverlaps(new', k, Substitute(IsAlnum(Last(old')), s[|old'|..], old', new'));
      }
    } else if k < |new'| {
      BeginsStep(s[0], Substitute(IsAlnum(s[0]), s[1..], old', new'), new'[k..]);
      assert new'[k..][1..] == new'[k + 1..];
      PeelUntouched(IsAlnum(s[0]), s[1..], k + 1, old', new');
      BeginsStep(s[0], s[1..], new'[k..]);
      assert s == [s[0]] + s[1..];
    }
  }

  lemma SeenIsThere(p: bool, s: string, old': Identifier, new': Identifier)
    requires (Anchored(new') || !Anchored(old')) && !OverlapsItself(new')
    requires s != "" && !StartsWord(p, s, old')
    requires StartsWord(p, Substitute(p, s, old', new'), new')
    ensures StartsWord(p, s, new')
  {
    var f' := Substitute(IsAlnum(s[0]), s[1..], old', new');
    BeginsStep(s[0], f', new');
    BeginsStep(s[0], s[1..], new');
    assert s == [s[0]] + s[1..];
    PeelUntouched(IsAlnum(s[0]), s[1..], 1, old', new');
  }

  /** Any identifier in which the new name is not already a word is restored, provided the new
      name cannot overlap itself. */
  lemma {:induction false} FreshNameIsOnlyWhereWritten(p: bool, q: bool, s: string, old': Identifier, new': Identifier)
    requires (Anchored(new') || !Anchored(old')) && !OverlapsItself(new')
    requires p == q || s == "" || (!IsAlnum(s[0]) && !StartsWord(p, s, old')
                                   && !StartsWord(q, Substitute(p, s, old', new'), new'))
    requires !HasWord(p, s, new') && !Merges(p, s, old', new')
    ensures OnlyWhereWritten(p, q, s, old', new')
    decreases |s|
  {
    if s == "" {
    } else if StartsWord(p, s, old') {
      var p', q' := IsAlnum(Last(old')), IsAlnum(Last(new'));
      var rest := s[|old'|..];
      if rest != "" && !StartsWord(p', rest, old') {
        assert rest[0] == s[|old'|];
        assert Substitute(p', rest, old', new')[0] == rest[0];
      }
      NoWordInSuffix(p, s, |old'|, new');
      FreshNameIsOnlyWhereWritten(p', q', rest, old', new');
    } else {
      if StartsWord(p, Substitute(p, s, old', new'), new') {
        SeenIsThere(p, s, old', new');
      }
      FreshNameIsOnlyWhereWritten(IsAlnum(s[0]), IsAlnum(s[0]), s[1..], old', new');
    }
  }

  /** Hence a name in which the new name is not already a word survives the rename and its reverse
      exactly when nothing merges, unless an anchored name is replaced by an unanchored one. */
  lemma FreshNameIsRestorableExactly(s: string, old': Identifier, new': Identifier)
    requires (Anchored(new') || !Anchored(old')) && !OverlapsItself(new') && !HasWord(false, s, new')
    ensures Restorable(s, old', new') <==> !Merges(false, s, old', new')
    ensures Alike(old', new') ==> Restorable(s, old', new')
  {
    if !Merges(false, s, old', new') {
      FreshNameIsOnlyWhereWritten(false, false, s, old', new');
    }
    if Alike(old', new') {
      NeverMerges(false, s, old', new');
    }
  }

  /** No word starts inside a run of letters and digits. */
  lemma {:induction false} WordBeyondRun(p: bool, s: string, k: nat, w: Identifier)
    requires p && k <= |s| && (forall i :: 0 <= i < k ==> IsAlnum(s[i]))
    requires HasWord(p, s, w)
    ensures HasWord(true, s[k..], w)
    decreases k
  {
    if k > 0 {
      WordBeyondRun(true, s[1..], k - 1, w);
      assert s[1..][k - 1..] == s[k..];
    } else {
      assert s[0..] == s;
    }
  }

  /** A run of letters and digits already begun is copied unchanged up to its end. */
  lemma {:induction false} RunIsUntouched(s: string, w: string, from: Identifier, to: string)
    requires Begins(s, w) && forall i :: 0 <= i < |w| ==> IsAlnum(w[i])
    ensures Begins(Substitute(true, s, from, to), w)
    decreases |s|
  {
    if w != "" {
      assert s[0] == w[0];
      RunIsUntouched(s[1..], w[1..], from, to);
      assert w == [s[0]] + w[1..];
    }
  }

  /** Behind a match of one plain name, another one is still to come if there was one. */
  lemma OtherWordFollows(p: bool, s: string, old': Identifier, new': Identifier)
    requires Plain(old') && Plain(new') && old' != new'
    requires StartsWord(p, s, old') && HasWord(p, s, new')
    ensures HasWord(true, s[|old'|..], new')
  {
    assert |new'| < |old'| ==> s[|new'|] == old'[|new'|];
    assert |old'| < |new'| <= |s| ==> s[|old'|] == s[..|new'|][|old'|];
    assert !StartsWord(p, s, new');
    WordBeyondRun(IsAlnum(s[0]), s[1..], |old'| - 1, new');
    assert s[1..][|old'| - 1..] == s[|old'|..];
  }

  /** A match of the new name that is not touched is still there after the rename. */
  lemma UntouchedMatchStays(p: bool, s: string, old': Identifier, new': Identifier)
    requires Plain(new') && !StartsWord(p, s, old') && StartsWord(p, s, new')
    ensures StartsWord(p, Substitute(p, s, old', new'), new')
  {
    assert s == [s[0]] + s[1..] && s[0] == new'[0];
    BeginsStep(s[0], s[1..], new');
    RunIsUntouched(s[1..], new'[1..], old', new');
    BeginsStep(s[0], Substitute(true, s[1..], old', new'), new');
  }

  lemma {:induction false} PresentNameIsSeen(p: bool, s: string, old': Identifier, new': Identifier)
    requires Plain(old') && Plain(new') && old' != new'
    requires HasWord(p, s, new')
    ensures !OnlyWhereWritten(p, p, s, old', new')
    decreases |s|
  {
    if StartsWord(p, s, old') {
      OtherWordFollows(p, s, old', new');
      PresentNameIsSeen(true, s[|old'|..], old', new');
    } else if StartsWord(p, s, new') {
      UntouchedMatchStays(p, s, old', new');
    } else {
      PresentNameIsSeen(IsAlnum(s[0]), s[1..], old', new');
    }
  }

  /** For names without underscores the exact condition is the obvious one: the new name was not
      already a word of the identifier. */
  lemma PlainInverseExactly(s: string, old': Identifier, new': Identifier)
    requires Plain(old') && Plain(new') && old' != new'
    ensures Rename(Rename(s, old', new'), new', old') == s <==> !HasWord(false, s, new')
  {
    PlainNamesAreSimple(old');
    PlainNamesAreSimple(new');
    RenameInverse(s, old', new');
    NeverMerges(false, s, old', new');
    if HasWord(false, s, new') {
      PresentNameIsSeen(false, s, old', new');
    } else {
      FreshNameIsOnlyWhereWritten(false, false, s, old', new');
    }
  }

  lemma {:induction false} LengthMoves(p: bool, s: string, from: Identifier, to: string)
    ensures |to| <= |from| ==> |Substitute(p, s, from, to)| <= |s|
    ensures |to| >= |from| ==> |Substitute(p, s, from, to)| >= |s|
    decreases |s|
  {
    if s == "" {
    } else if StartsWord(p, s, from) {
      LengthMoves(IsAlnum(Last(from)), s[|from|..], from, to);
    } else {
      LengthMoves(IsAlnum(s[0]), s[1..], from, to);
    }
  }

  // ---- A plain name replaced by one with separators at both ends ---------------------------

  /** Word `o` stands in `n` at position `k`. */
  predicate WordAt(n: string, o: Identifier, k: nat)
    requires k < |n|
  {
    StartsWord(k > 0 && IsAlnum(n[k - 1]), n[k..], o)
  }

  lemma {:induction false} FirstWordFrom(n: string, o: Identifier, k: nat) returns (j: nat)
    requires k <= |n| && HasWord(k > 0 && IsAlnum(n[k - 1]), n[k..], o)
    ensures k <= j < |n| && WordAt(n, o, j)
    ensures forall i :: k <= i < j ==> !WordAt(n, o, i)
    decreases |n| - k
  {
    if WordAt(n, o, k) {
      j := k;
    } else {
      assert n[k..][1..] == n[k + 1..] && n[k..][0] == n[k];
      j := FirstWordFrom(n, o, k + 1);
    }
  }

  /** A run of letters and digits read after the rename, and already begun, was there before. */
  lemma {:induction false} RunWasThere(s: string, w: string, from: Identifier, to: string)
    requires Begins(Substitute(true, s, from, to), w) && forall i :: 0 <= i < |w| ==> IsAlnum(w[i])
    ensures Begins(s, w)
    decreases |s|
  {
    if s != "" {
      var f' := Substitute(IsAlnum(s[0]), s[1..], from, to);
      assert Substitute(true, s, from, to) == [s[0]] + f' && s == [s[0]] + s[1..];
      if w != "" {
        BeginsStep(s[0], f', w);
        RunWasThere(s[1..], w[1..], from, to);
        BeginsStep(s[0], s[1..], w);
      }
    }
  }

  /** A plain word read at an untouched position was a word there before. */
  lemma PlainWordWasThere(s: string, o: Identifier, n: Identifier)
    requires Plain(o) && s != "" && !StartsWord(false, s, o)
    ensures !Begins(Substitute(false, s, o, n), o)
  {
    var f' := Substitute(IsAlnum(s[0]), s[1..], o, n);
    assert Substitute(false, s, o, n) == [s[0]] + f' && s == [s[0]] + s[1..];
    BeginsStep(s[0], f', o);
    BeginsStep(s[0], s[1..], o);
    if s[0] == o[0] && Begins(f', o[1..]) {
      RunWasThere(s[1..], o[1..], o, n);
    }
  }

  lemma BeginsWithItself(n: Identifier, k: nat, rest: string)
    requires k < |n| && Begins(n + rest, n[k..])
    ensures n[0] == n[k] && forall i :: 0 <= i < |n| - k ==> n[i] == n[k + i]
  {
    assert n[k..] == (n + rest)[..|n| - k] == n[..|n| - k];
    assert forall i :: 0 <= i < |n| - k ==> n[i] == n[k..][i] == n[k + i];
  }

  /** A plain word in a name with separators at both ends is followed by a character. */
  lemma WordEndsInside(o: Identifier, n: Identifier, j: nat)
    requires Plain(o) && !Anchored(n) && j < |n| && WordAt(n, o, j)
    ensures j + |o| < |n| && !IsAlnum(n[j + |o|]) && forall i :: 0 <= i < |o| ==> n[j + i] == o[i]
    ensures n[j] == o[0] && IsAlnum(o[0])
  {
    assert n[j..][0] == n[j];
    assert forall i :: 0 <= i < |o| ==> n[j + i] == n[j..][i] == o[i];
    assert |n[j..]| > |o| ==> n[j..][|o|] == n[j + |o|];
  }

  lemma WordShifts(o: Identifier, n: Identifier, j: nat, k: nat)
    requires Plain(o) && !Anchored(n) && 0 < k < j < |n| && WordAt(n, o, j)
    requires forall i :: 0 <= i < |n| - k ==> n[i] == n[k + i]
    ensures WordAt(n, o, j - k)
  {
    WordEndsInside(o, n, j);
    assert n[j - k..][..|o|] == o;
    assert n[j - k..][|o|] == n[j - k + |o|];
  }

  /** The rest of a name from its first inner word on is not followed by the name itself. */
  lemma FirstWordDoesNotShift(o: Identifier, n: Identifier, j: nat, k: nat, rest: string)
    requires Plain(o) && !Anchored(n) && 0 < k <= j < |n| && WordAt(n, o, j)
    requires forall i :: 0 < i < j ==> !WordAt(n, o, i)
    ensures !Begins(n + rest, n[k..])
  {
    WordEndsInside(o, n, j);
    if Begins(n + rest, n[k..]) {
      BeginsWithItself(n, k, rest);
      if j > k {
        WordShifts(o, n, j, k);
      }
    }
  }

  lemma NameGoesOn(f: string, n: Identifier, j: nat, o: Identifier)
    requires Plain(o) && !Anchored(n) && j < |n| && WordAt(n, o, j)
    ensures Begins(f, n[j..]) ==> Begins(f, o)
  {
    WordEndsInside(o, n, j);
    if Begins(f, n[j..]) {
      assert f[..|o|] == n[j..][..|o|] == o;
      assert f[|o|] == n[j..][|o|];
    }
  }

  /** Behind the first `k` characters of the new name, the rename never writes or leaves the rest of
      it: its inner old name would have been renamed. */
  lemma {:induction false} NotReadOn(p: bool, s: string, k: nat, j: nat, o: Identifier, n: Identifier)
    requires Plain(o) && !Anchored(n) && 0 < k <= j < |n| && WordAt(n, o, j)
    requires forall i :: 0 < i < j ==> !WordAt(n, o, i)
    requires p == IsAlnum(n[k - 1])
    ensures !Begins(Substitute(p, s, o, n), n[k..])
    decreases |s|
  {
    if s == "" {
    } else if StartsWord(p, s, o) {
      FirstWordDoesNotShift(o, n, j, k, Substitute(IsAlnum(Last(o)), s[|o|..], o, n));
    } else if k == j {
      PlainWordWasThere(s, o, n);
      NameGoesOn(Substitute(p, s, o, n), n, j, o);
    } else {
      var f' := Substitute(IsAlnum(s[0]), s[1..], o, n);
      assert Substitute(p, s, o, n) == [s[0]] + f';
      BeginsStep(s[0], f', n[k..]);
      assert n[k..][1..] == n[k + 1..];
      if s[0] == n[k] {
        NotReadOn(IsAlnum(s[0]), s[1..], k + 1, j, o, n);
      }
    }
  }

  /** If the new name contains the old one as a word, every text is restored. */
  lemma {:induction false} NestedNameIsOnlyWhereWritten(p: bool, q: bool, s: string, o: Identifier, n: Identifier,
                                                        j: nat)
    requires Plain(o) && !Anchored(n) && 0 < j < |n| && WordAt(n, o, j)
    requires forall i :: 0 < i < j ==> !WordAt(n, o, i)
    ensures OnlyWhereWritten(p, q, s, o, n)
    decreases |s|
  {
    if s == "" {
    } else if StartsWord(p, s, o) {
      NestedNameIsOnlyWhereWritten(IsAlnum(Last(o)), IsAlnum(Last(n)), s[|o|..], o, n, j);
    } else {
      var f' := Substitute(IsAlnum(s[0]), s[1..], o, n);
      assert Substitute(p, s, o, n) == [s[0]] + f';
      BeginsStep(s[0], f', n);
      if s[0] == n[0] {
        NotReadOn(IsAlnum(s[0]), s[1..], 1, j, o, n);
      }
      NestedNameIsOnlyWhereWritten(IsAlnum(s[0]), IsAlnum(s[0]), s[1..], o, n, j);
    }
  }

  lemma LastOfPrefix(a: string, b: string, o: string)
    requires a != "" && o <= a + b && |o| >= |a|
    ensures o[|a| - 1] == Last(a)
  {
    assert o[|a| - 1] == (a + b)[|a| - 1];
  }

  lemma PlainEndsBefore(a: string, b: string, o: Identifier)
    requires Plain(o) && a != "" && !IsAlnum(Last(a))
    ensures Begins(a + b, o) ==> Begins(a, o)
  {
    if o <= a + b && |o| >= |a| {
      LastOfPrefix(a, b, o);
    } else if Begins(a + b, o) {
      assert a[..|o|] == (a + b)[..|o|];
      assert a[|o|] == (a + b)[|o|];
    }
  }

  /** A text without the old name as a word is copied up to a separator. */
  lemma {:induction false} CopiedUpTo(p: bool, a: string, b: string, o: Identifier, n: Identifier)
    requires Plain(o) && a != "" && !IsAlnum(Last(a)) && !HasWord(p, a, o)
    ensures Substitute(p, a + b, o, n) == a + Substitute(false, b, o, n)
    ensures !StartsWord(p, a + b, o)
    decreases |a|
  {
    var t := a + b;
    assert t == [a[0]] + (a[1..] + b) && a == [a[0]] + a[1..];
    PlainEndsBefore(a, b, o);
    if |a| == 1 {
      assert a[1..] + b == b;
    } else {
      CopiedUpTo(IsAlnum(a[0]), a[1..], b, o, n);
    }
    assert t[1..] == a[1..] + b && t[0] == a[0];
  }

  lemma {:induction false} NoWordInPlain(p: bool, o: string, n: Identifier)
    requires !Anchored(n) && forall i :: 0 <= i < |o| ==> IsAlnum(o[i])
    ensures !HasWord(p, o, n)
    decreases |o|
  {
    if o != "" {
      assert o[0] != n[0];
      NoWordInPlain(IsAlnum(o[0]), o[1..], n);
    }
  }

  /** A name with separators at both ends is no word of a shorter text that goes on with a plain one. */
  lemma {:induction false} NoWordUpToPlain(p: bool, a: string, o: Identifier, n: Identifier)
    requires Plain(o) && !Anchored(n) && |a| < |n|
    ensures !HasWord(p, a + o, n)
    decreases |a|
  {
    if a == "" {
      assert a + o == o;
      NoWordInPlain(p, o, n);
    } else {
      var t := a + o;
      assert t[1..] == a[1..] + o;
      NoWordUpToPlain(IsAlnum(a[0]), a[1..], o, n);
      assert |n| <= |t| ==> t[|n| - 1] == o[|n| - 1 - |a|];
    }
  }

  /** If it does not, the new name followed by the old one is a fresh text that is not restored. */
  lemma NameThenOldIsNotRestored(o: Identifier, n: Identifier)
    requires Plain(o) && !Anchored(n) && !HasWord(false, n, o)
    ensures !HasWord(false, n + o, n) && !Restorable(n + o, o, n)
  {
    var s := n + o;
    assert s[0] == n[0] && s[|n|] == o[0];
    assert s[1..] == n[1..] + o;
    NoWordUpToPlain(IsAlnum(n[0]), n[1..], o, n);
    CopiedUpTo(false, n, o, o, n);
    assert o[|o|..] == "" && Substitute(false, o, o, n) == n;
    assert (n + n)[|n|] == n[0];
    assert StartsWord(false, n + n, n);
  }

  /** A plain name and a new one with separators at both ends: all texts survive the rename and its
      reverse, or all in which the new name is not already a word, exactly when the new name contains
      the old one as a word. */
  lemma NestedNamesRestoreExactly(o: Identifier, n: Identifier)
    requires Plain(o) && !Anchored(n)
    ensures (forall s: string :: Restorable(s, o, n)) <==> HasWord(false, n, o)
    ensures (forall s: string :: !HasWord(false, s, n) ==> Restorable(s, o, n)) <==> HasWord(false, n, o)
  {
    if HasWord(false, n, o) {
      assert n[0..] == n && o[0] != n[0];
      var j := FirstWordFrom(n, o, 0);
      assert j > 0;
      forall s: string ensures Restorable(s, o, n) {
        NestedNameIsOnlyWhereWritten(false, false, s, o, n, j);
        NeverMerges(false, s, o, n);
      }
    } else {
      NameThenOldIsNotRestored(o, n);
    }
  }

  /** A text is left unchanged by a rename to a different name exactly when the name is not a
      word of it. */
  lemma {:induction false} UnchangedExactly(p: bool, s: string, from: Identifier, to: Identifier)
    requires from != to
    ensures Substitute(p, s, from, to) == s <==> !HasWord(p, s, from)
    decreases |s|
  {
    if s == "" {
    } else if StartsWord(p, s, from) {
      LengthMoves(IsAlnum(Last(from)), s[|from|..], from, to);
      assert s == from + s[|from|..];
      var f := Substitute(p, s, from, to);
      assert f[..|to|] == to && s[..|from|] == from;
    } else {
      UnchangedExactly(IsAlnum(s[0]), s[1..], from, to);
      assert s == [s[0]] + s[1..];
      var f := Substitute(p, s, from, to);
      assert f[1..] == Substitute(IsAlnum(s[0]), s[1..], from, to);
    }
  }

  /** The inverse law is false for a new name that overlaps itself, although the name is fresh. */
  lemma OverlapBreaksTheInverse()
    ensures Rename("a_b", "b", "a_a") == "a_a_a"
    ensures Rename("a_a_a", "a_a", "b") == "b_a"
    ensures !HasWord(false, "a_b", "a_a") && OverlapsItself("a_a")
  {
    var s: string := "a_a_a";
    assert Substitute(true, "_b", "b", "a_a") == "_a_a" by {
      assert Substitute(false, "b", "b", "a_a") == "a_a";
    }
    assert StartsWord(false, s, "a_a");
    assert s[3..] == "_a";
    assert Substitute(true, "_a", "a_a", "b") == "_a" by {
      assert Substitute(false, "a", "a_a", "b") == "a";
    }
    assert OverlapsAt("a_a", 2);
  }

  /** It is false as well when touching occurrences of the old name merge. */
  lemma MergingBreaksTheInverse()
    ensures Rename("__", "_", "x") == "xx" && Rename("xx", "x", "_") == "xx"
    ensures OnlyWhereWritten(false, false, "__", "_", "x") && Merges(false, "__", "_", "x")
  {
    var s: string := "__";
    assert s[1..] == "_";
    assert Substitute(false, "_", "_", "x") == "x";
    assert Substitute(true, "x", "x", "_") == "x";
    var t: string := "xx";
    assert t[1..] == "x";
    assert OnlyWhereWritten(false, true, "_", "_", "x");
    assert Anchored("x");
  }

  // ---- What an accepted identifier looks like ----------------------------------------------

  /** Every renamed piece is a whole word of the spelled-out text. */
  predicate WholeWords(prev: bool, ps: seq<Piece>, name: Identifier)
    decreases |ps|
  {
    ps == [] ||
    match ps[0]
    case Kept(c) => WholeWords(IsAlnum(c), ps[1..], name)
    case Renamed =>
      var rest := Spell(ps[1..], name);
      && !prev
      && (rest == "" || !IsAlnum(rest[0]))
      && WholeWords(IsAlnum(Last(name)), ps[1..], name)
  }

  /** Two renamed words stand next to each other without a character between them. */
  predicate Touches(ps: seq<Piece>) {
    |ps| >= 2 && ((ps[0].Renamed? && ps[1].Renamed?) || Touches(ps[1..]))
  }

  /** `after` arises from `before` by turning some occurrences of the old name, each a whole word of
      `before`, into the new one, each a whole word of `after`; all other characters stay.  Only an
      unanchored new name, whose occurrences can touch, may replace parts of a longer word. */
  ghost predicate WordRename(before: string, after: string, old': Identifier, new': Identifier) {
    exists ps ::
      && Spell(ps, old') == before && Spell(ps, new') == after && WholeWords(false, ps, new')
      && (WholeWords(false, ps, old') || (Touches(ps) && Anchored(old') && !Anchored(new')))
  }

  /** Whole words of the after text are whole words of the before text, unless they touch and the
      old name is anchored; occurrences of an anchored new name never touch. */
  lemma {:induction false} WordsOfBothTexts(p: bool, q: bool, ps: seq<Piece>, old': Identifier, new': Identifier)
    requires WholeWords(p, ps, new')
    requires p == q || ps == [] || ps[0].Kept?
    ensures Anchored(new') ==> !Touches(ps)
    ensures WholeWords(q, ps, old') <==> !Touches(ps) || !Anchored(old')
    decreases |ps|
  {
    if ps != [] {
      var p', q' := IsAlnum(Last(new')), IsAlnum(Last(old'));
      if ps[0].Kept? {
        WordsOfBothTexts(IsAlnum(ps[0].c), IsAlnum(ps[0].c), ps[1..], old', new');
      } else if |ps| == 1 {
        assert ps[1..] == [];
      } else {
        assert Spell(ps[1..], new')[0] == SpellPiece(ps[1], new')[0];
        assert Spell(ps[1..], old')[0] == SpellPiece(ps[1], old')[0];
        if ps[1].Kept? {
          WordsOfBothTexts(p', q', ps[1..], old', new');
        } else {
          WordsOfBothTexts(p', p', ps[1..], old', new');
        }
      }
    }
  }

  lemma {:induction false} CutsWholeWords(prev: bool, s: string, word: Identifier)
    ensures WholeWords(prev, Cut(prev, s, word), word)
    decreases |s|
  {
    var ps := Cut(prev, s, word);
    if s == "" {
    } else if StartsWord(prev, s, word) {
      var rest := s[|word|..];
      CutsWholeWords(IsAlnum(Last(word)), rest, word);
      CutSpells(IsAlnum(Last(word)), rest, word, word);
      assert ps[1..] == Cut(IsAlnum(Last(word)), rest, word);
      assert rest != "" ==> rest[0] == s[|word|];
    } else {
      CutsWholeWords(IsAlnum(s[0]), s[1..], word);
      assert ps[1..] == Cut(IsAlnum(s[0]), s[1..], word);
    }
  }

  lemma {:induction false} KeptSpells(prev: bool, ps: seq<Piece>, s: string, name: Identifier)
    requires |ps| == |s| && forall i :: 0 <= i < |s| ==> ps[i] == Kept(s[i])
    ensures Spell(ps, name) == s && WholeWords(prev, ps, name)
    decreases |s|
  {
    if s != "" {
      KeptSpells(IsAlnum(s[0]), ps[1..], s[1..], name);
    }
  }

  lemma {:induction false} KeepAll(s: string, old': Identifier, new': Identifier)
    ensures WordRename(s, s, old', new')
  {
    var ps := seq(|s|, i requires 0 <= i < |s| => Kept(s[i]));
    KeptSpells(false, ps, s, old');
    KeptSpells(false, ps, s, new');
  }

  /** If rewriting `after` backwards gives `before`, then `after` is a word rename of `before`. */
  lemma AcceptedIsWordRename(before: string, after: string, old': Identifier, new': Identifier)
    requires Rename(after, new', old') == before
    ensures WordRename(before, after, old', new')
  {
    if old' == new' {
      KeepAll(after, old', new');
    } else {
      CutSpells(false, after, new', old');
      CutsWholeWords(false, after, new');
      WordsOfBothTexts(false, false, Cut(false, after, new'), old', new');
    }
  }

  /** For such names the before text of an accepted pair need not contain the old name as a word. */
  lemma TouchingWordsMerge()
    ensures Rename("__", "_", "a") == "aa" && !HasWord(false, "aa", "a")
    ensures !Anchored("_") && Anchored("a")
  {
    var s: string := "__";
    assert s[1..] == "_";
    assert Substitute(false, "_", "_", "a") == "a";
    var t: string := "aa";
    assert t[1..] == "a";
    assert !HasWord(true, "a", "a");
  }

  lemma {:induction false} RenamedOrKept(ps: seq<Piece>, old': Identifier, new': Identifier)
    ensures Spell(ps, old') == Spell(ps, new') || |Spell(ps, old')| >= |old'|
    ensures |Spell(ps, old')| <= |old'| && Spell(ps, old') != Spell(ps, new')
            ==> Spell(ps, new') == new'
    decreases |ps|
  {
    if ps != [] {
      RenamedOrKept(ps[1..], old', new');
      if ps[0].Renamed? && |Spell(ps, old')| <= |old'| {
        SpellsNothing(ps[1..], old');
      }
    }
  }

  /** A word rename turns the old name itself into the new one or leaves it, nothing else. */
  lemma {:induction false} WholeNameBecomesNew(after: string, old': Identifier, new': Identifier)
    requires WordRename(old', after, old', new')
    ensures after == old' || after == new'
  {
    var ps :| Spell(ps, old') == old' && Spell(ps, new') == after;
    RenamedOrKept(ps, old', new');
  }
}
