/** Go strings are byte strings: lengths and slices count bytes. */
module Bytes {
  type Byte = c: char | c < 256 as char witness '0'

  type Bytes = seq<Byte>

  datatype Option<+T> = None | Some(value: T)

  predicate IsDigit(c: Byte) {
    '0' <= c <= '9'
  }

  function DigitValue(c: Byte): (d: nat)
    requires IsDigit(c)
    ensures d < 10
  {
    (c as int) - ('0' as int)
  }

  function DigitChar(d: nat): (c: Byte)
    requires d < 10
    ensures IsDigit(c) && DigitValue(c) == d
  {
    (d + '0' as int) as char
  }

  function Lower(c: Byte): Byte {
    if 'A' <= c <= 'Z' then (c as int + 32) as char else c
  }

  /** strings.EqualFold(word, text) for an ASCII word. Two letters also fold to a non-ASCII rune:
      's' to U+017F and 'k' to U+212A, here in UTF-8. */
  predicate EqualFold(word: Bytes, text: Bytes) {
    if word == [] then text == []
    else if text != [] && Lower(text[0]) == Lower(word[0]) then EqualFold(word[1..], text[1..])
    else if Lower(word[0]) == 's' && ['\U{C5}', '\U{BF}'] <= text then EqualFold(word[1..], text[2..])
    else Lower(word[0]) == 'k' && ['\U{E2}', '\U{84}', '\U{AA}'] <= text && EqualFold(word[1..], text[3..])
  }

  lemma {:induction false} EqualFoldRefl(word: Bytes)
    ensures EqualFold(word, word)
  {
    if word != [] {
      EqualFoldRefl(word[1..]);
    }
  }

  /** The same character, or the two cases of one ASCII letter. */
  predicate SameLetter(a: Byte, b: Byte) {
    || a == b
    || ('A' <= a <= 'Z' && b as int == a as int + 32)
    || ('A' <= b <= 'Z' && a as int == b as int + 32)
  }

  /** A word folds to exactly the texts that differ at most in the case of letters, among ASCII texts, and among all
      texts when it has no s and no k. */
  lemma {:induction false} EqualFoldExactly(word: Bytes, text: Bytes)
    requires || (forall i :: 0 <= i < |text| ==> text[i] < '\U{80}')
             || (forall i :: 0 <= i < |word| ==> Lower(word[i]) != 's' && Lower(word[i]) != 'k')
    ensures EqualFold(word, text) <==> |word| == |text| && forall i :: 0 <= i < |word| ==> SameLetter(word[i], text[i])
  {
    if word != [] && text != [] {
      SameLower(word[0], text[0]);
      EqualFoldExactly(word[1..], text[1..]);
      assert forall i :: 0 < i < |word| ==> word[i] == word[1..][i - 1];
      assert forall i :: 0 < i < |text| ==> text[i] == text[1..][i - 1];
      if |word| == |text| && SameLetter(word[0], text[0]) && EqualFold(word[1..], text[1..]) {
        forall i | 0 <= i < |word| ensures SameLetter(word[i], text[i]) {
          if i > 0 {
            assert SameLetter(word[1..][i - 1], text[1..][i - 1]);
          }
        }
      }
      if |word| == |text| && forall i :: 0 <= i < |word| ==> SameLetter(word[i], text[i]) {
        forall i | 0 <= i < |word[1..]| ensures SameLetter(word[1..][i], text[1..][i]) {
          assert SameLetter(word[i + 1], text[i + 1]);
        }
      }
    }
  }

  /** The two letters with a non-ASCII fold. */
  lemma WideFolds(word: Bytes, text: Bytes)
    requires EqualFold(word, text)
    ensures EqualFold(['s'] + word, ['\U{C5}', '\U{BF}'] + text) && EqualFold(['S'] + word, ['\U{C5}', '\U{BF}'] + text)
    ensures EqualFold(['k'] + word, ['\U{E2}', '\U{84}', '\U{AA}'] + text)
    ensures EqualFold(['K'] + word, ['\U{E2}', '\U{84}', '\U{AA}'] + text)
  {
    assert (['\U{C5}', '\U{BF}'] + text)[2..] == text && (['\U{E2}', '\U{84}', '\U{AA}'] + text)[3..] == text;
  }

  lemma SameLower(a: Byte, b: Byte)
    ensures Lower(a) == Lower(b) <==> SameLetter(a, b)
  {
  }

  lemma Assoc(a: Bytes, b: Bytes, c: Bytes)
    ensures (a + b) + c == a + (b + c)
  {
  }
}
