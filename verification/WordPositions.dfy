/**
 The substitution told by positions: which characters separate words, where a word stands in a text,
 and that the matches are replaced from the left, one after the other.
 */
module WordPositions {
  import opened Sequences
  import opened WordSubstitution

  lemma CapitalsExactly(c: char)
    ensures 'A' <= c <= 'M' <==> c in "ABCDEFGHIJKLM"
    ensures 'N' <= c <= 'Z' <==> c in "NOPQRSTUVWXYZ"
  {
    if 'A' <= c <= 'M' {
      assert "ABCDEFGHIJKLM"[c as int - 'A' as int] == c;
    }
    if 'N' <= c <= 'Z' {
      assert "NOPQRSTUVWXYZ"[c as int - 'N' as int] == c;
    }
  }

  lemma SmallLettersExactly(c: char)
    ensures 'a' <= c <= 'm' <==> c in "abcdefghijklm"
    ensures 'n' <= c <= 'z' <==> c in "nopqrstuvwxyz"
  {
    if 'a' <= c <= 'm' {
      assert "abcdefghijklm"[c as int - 'a' as int] == c;
    }
    if 'n' <= c <= 'z' {
      assert "nopqrstuvwxyz"[c as int - 'n' as int] == c;
    }
  }

  lemma DigitsExactly(c: char)
    ensures '0' <= c <= '9' <==> c in "0123456789"
  {
    if '0' <= c <= '9' {
      assert "0123456789"[c as int - '0' as int] == c;
    }
  }

  /** The characters that words are made of; everything else, `_` too, separates them. */
  lemma AlnumExactly(c: char)
    ensures IsAlnum(c) <==>
              || c in "ABCDEFGHIJKLM" || c in "NOPQRSTUVWXYZ"
              || c in "abcdefghijklm" || c in "nopqrstuvwxyz" || c in "0123456789"
  {
    CapitalsExactly(c);
    SmallLettersExactly(c);
    DigitsExactly(c);
  }

  /** The word stands at position `i`, with no letter or digit at either side; `prev` says whether one
      precedes the text. */
  ghost predicate StandsAt(prev: bool, s: string, word: Identifier, i: nat) {
    var end := i + |word|;
    && end <= |s| && s[i..end] == word
    && !(if i == 0 then prev else IsAlnum(s[i - 1]))
    && (end == |s| || !IsAlnum(s[end]))
  }

  lemma StartsExactly(prev: bool, s: string, word: Identifier)
    ensures StartsWord(prev, s, word) <==> StandsAt(prev, s, word, 0)
  {
  }

  lemma LaterInTail(prev: bool, s: string, word: Identifier, i: nat)
    requires s != ""
    ensures StandsAt(prev, s, word, i + 1) <==> StandsAt(IsAlnum(s[0]), s[1..], word, i)
  {
    var end := i + |word|;
    if end < |s| {
      assert s[1..][i..end] == s[i + 1..end + 1];
      assert i > 0 ==> s[1..][i - 1] == s[i];
    }
  }

  /** A text has a word exactly when the word stands somewhere in it. */
  lemma {:induction false} HasWordExactly(prev: bool, s: string, word: Identifier)
    ensures HasWord(prev, s, word) <==> exists i: nat :: StandsAt(prev, s, word, i)
    decreases |s|
  {
    StartsExactly(prev, s, word);
    if s != "" {
      HasWordExactly(IsAlnum(s[0]), s[1..], word);
      if i: nat :| StandsAt(IsAlnum(s[0]), s[1..], word, i) {
        LaterInTail(prev, s, word, i);
      }
      if i: nat :| StandsAt(prev, s, word, i) && i > 0 {
        LaterInTail(prev, s, word, i - 1);
      }
    }
  }

  /** The leftmost match of a text is the leftmost one of its tail. */
  lemma NotYet(prev: bool, s: string, from: Identifier, i: nat)
    requires i > 0 && StandsAt(prev, s, from, i) && forall j: nat :: j < i ==> !StandsAt(prev, s, from, j)
    ensures !StartsWord(prev, s, from) && StandsAt(IsAlnum(s[0]), s[1..], from, i - 1)
    ensures forall j: nat :: j < i - 1 ==> !StandsAt(IsAlnum(s[0]), s[1..], from, j)
  {
    StartsExactly(prev, s, from);
    assert !StandsAt(prev, s, from, 0);
    LaterInTail(prev, s, from, i - 1);
    forall j: nat | j < i - 1 ensures !StandsAt(IsAlnum(s[0]), s[1..], from, j) {
      LaterInTail(prev, s, from, j);
      assert !StandsAt(prev, s, from, j + 1);
    }
  }

  lemma Unmatched(prev: bool, s: string, from: Identifier, to: string)
    requires s != "" && !StartsWord(prev, s, from)
    ensures Substitute(prev, s, from, to) == [s[0]] + Substitute(IsAlnum(s[0]), s[1..], from, to)
  {}

  lemma PutInFront(s: string, i: nat, tail: string, to: string, rest: string)
    requires 0 < i <= |s| && tail == s[1..][..i - 1] + to + rest
    ensures [s[0]] + tail == s[..i] + to + rest
  {
    var front := s[1..][..i - 1];
    assert s[..i] == [s[0]] + front;
    assert [s[0]] + (front + to + rest) == [s[0]] + front + to + rest;
  }

  /** The leftmost match is replaced, and the rest is treated as text after the replaced word. */
  lemma {:induction false} LeftmostIsReplaced(prev: bool, s: string, from: Identifier, to: string, i: nat)
    requires StandsAt(prev, s, from, i)
    requires forall j: nat :: j < i ==> !StandsAt(prev, s, from, j)
    ensures Substitute(prev, s, from, to)
         == s[..i] + to + Substitute(IsAlnum(Last(from)), s[i + |from|..], from, to)
    decreases |s|
  {
    StartsExactly(prev, s, from);
    if i == 0 {
      assert s[..0] + to == to;
    } else {
      var prev', tail := IsAlnum(s[0]), s[1..];
      NotYet(prev, s, from, i);
      LeftmostIsReplaced(prev', tail, from, to, i - 1);
      assert tail[i - 1 + |from|..] == s[i + |from|..];
      Unmatched(prev, s, from, to);
      PutInFront(s, i, Substitute(prev', tail, from, to), to,
                 Substitute(IsAlnum(Last(from)), s[i + |from|..], from, to));
    }
  }

  /** Without a match nothing changes. */
  lemma {:induction false} NoMatchNoChange(prev: bool, s: string, from: Identifier, to: string)
    requires forall j: nat :: !StandsAt(prev, s, from, j)
    ensures Substitute(prev, s, from, to) == s
    decreases |s|
  {
    StartsExactly(prev, s, from);
    if s != "" {
      forall j: nat ensures !StandsAt(IsAlnum(s[0]), s[1..], from, j) {
        LaterInTail(prev, s, from, j);
        assert !StandsAt(prev, s, from, j + 1);
      }
      NoMatchNoChange(IsAlnum(s[0]), s[1..], from, to);
    }
  }
}
