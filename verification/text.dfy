/** Character-level helpers of the two route handlers: byte-order-mark removal,
    lower-casing, substring search and the character strip of `parseMonetaryValue`. */
module Text {
  import opened Seqs

  /** U+FEFF, the byte-order mark `fs.readFile` leaves at the head of a UTF-8 file. */
  const Bom: char := '\U{FEFF}'

  /** Drops one leading byte-order mark, if there is one. */
  function StripBom(content: string): (r: string)
    ensures |content| > 0 && content[0] == Bom ==> [Bom] + r == content
    ensures !(|content| > 0 && content[0] == Bom) ==> r == content
  {
    if |content| > 0 && content[0] == Bom then content[1..] else content
  }

  /** Only one mark is removed: a second mark stays part of the content. */
  lemma StripBomOnce(s: string)
    ensures StripBom([Bom] + s) == s
    ensures StripBom(StripBom([Bom, Bom] + s)) == s
  {
    assert ([Bom] + s)[1..] == s;
    assert ([Bom, Bom] + s)[1..] == [Bom] + s;
  }

  /** Lower-casing of one character, restricted to ASCII letters. */
  function LowerChar(c: char): (r: char)
    ensures 'A' <= c <= 'Z' ==> r as int == c as int + 32
    ensures !('A' <= c <= 'Z') ==> r == c
    ensures !('A' <= r <= 'Z')
  {
    if 'A' <= c <= 'Z' then (c as int + 32) as char else c
  }

  /** `toLowerCase`: lower-cases every character, keeping the length. */
  function Lower(s: string): (r: string)
    ensures |r| == |s|
    ensures forall i :: 0 <= i < |s| ==> r[i] == LowerChar(s[i])
  {
    if |s| == 0 then [] else [LowerChar(s[0])] + Lower(s[1..])
  }

  /** `needle` occurs in `hay` starting at index `i`. */
  predicate OccursAt(hay: string, needle: string, i: int)
  {
    0 <= i && i + |needle| <= |hay| && hay[i..i + |needle|] == needle
  }

  /** `String.prototype.includes`, as a left-to-right scan. */
  function Includes(hay: string, needle: string): (r: bool)
    ensures r <==> exists i :: OccursAt(hay, needle, i)
    decreases |hay|
  {
    if |needle| > |hay| then false
    else if hay[..|needle|] == needle then
      assert OccursAt(hay, needle, 0);
      true
    else
      var r := Includes(hay[1..], needle);
      assert r ==> exists i :: OccursAt(hay, needle, i) by {
        if r {
          var j :| OccursAt(hay[1..], needle, j);
          assert hay[1..][j..j + |needle|] == hay[j + 1..j + 1 + |needle|];
          assert OccursAt(hay, needle, j + 1);
        }
      }
      assert (exists i :: OccursAt(hay, needle, i)) ==> r by {
        if exists i :: OccursAt(hay, needle, i) {
          var i :| OccursAt(hay, needle, i);
          assert i != 0;
          assert hay[1..][i - 1..i - 1 + |needle|] == hay[i..i + |needle|];
          assert OccursAt(hay[1..], needle, i - 1);
        }
      }
      r
  }

  /** Every string includes the empty string, so an empty query matches anything. */
  lemma IncludesEmpty(hay: string)
    ensures Includes(hay, "")
  {
    assert OccursAt(hay, "", 0);
  }

  /** The characters the regular expression `[^0-9.-]+` does NOT remove. */
  predicate IsMoneyChar(c: char)
  {
    '0' <= c <= '9' || c == '.' || c == '-'
  }

  /** The character-strip half of `parseMonetaryValue`: everything except digits,
      `.` and `-` is deleted; the number itself is read by an abstract parser. */
  function MoneyChars(value: string): (r: string)
    ensures IsSubsequence(r, value)
    ensures forall c :: c in r ==> IsMoneyChar(c)
    ensures forall c :: IsMoneyChar(c) ==> multiset(r)[c] == multiset(value)[c]
  {
    Select(value, IsMoneyChar)
  }

  /** Stripping is idempotent: a stripped value has nothing left to strip. */
  lemma MoneyCharsIdempotent(value: string)
    ensures MoneyChars(MoneyChars(value)) == MoneyChars(value)
  {
    SelectAll(MoneyChars(value), IsMoneyChar);
  }
}
