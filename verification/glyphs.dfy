/**
 * The glyph pool the rain samples from: a block of half-width katakana,
 * the upper-case Latin letters followed by the ten digits, and the
 * upper-case letters again in mirrored (Z..A) order.
 */
module Glyphs {

  /** The half-width katakana literal, written out group by group. */
  const HalfWidthKana: string :=
    "｡｢｣､･" + "ｦｧｨｩｪｫｬｭｮｯ" + "ｰ" + "ｱｲｳｴｵ" + "ｶｷｸｹｺ" + "ｻｼｽｾｿ"
    + "ﾀﾁﾂﾃﾄ" + "ﾅﾆﾇﾈﾉ" + "ﾊﾋﾌﾍﾎ" + "ﾏﾐﾑﾒﾓ" + "ﾔﾕﾖ" + "ﾗﾘﾙﾚﾛ" + "ﾜﾝ"

  /** Python's string.ascii_uppercase. */
  const Uppercase: string := "ABCDEFGHIJKLMNOPQRSTUVWXYZ"

  /** The forward alphanumeric sub-pool: letters, then digits. */
  const Ascii: string := Uppercase + "0123456789"

  /** The letter at the same distance from 'Z' as `c` is from 'A'. */
  function Mirror(c: char): (m: char)
    requires 'A' <= c <= 'Z'
    ensures 'A' <= m <= 'Z'
  {
    ('Z' as int - (c as int - 'A' as int)) as char
  }

  /** Mirroring a letter twice gives it back, no letter is its own mirror, and 'M' pairs with 'N'. */
  lemma MirrorInvolution(c: char)
    requires 'A' <= c <= 'Z'
    ensures Mirror(Mirror(c)) == c
    ensures Mirror(c) != c
    ensures c == 'M' <==> Mirror(c) == 'N'
  {
  }

  /** Every letter of `s` replaced by its mirror image, in place. */
  function MirrorAll(s: string): (r: string)
    requires forall i :: 0 <= i < |s| ==> 'A' <= s[i] <= 'Z'
    ensures |r| == |s|
  {
    seq(|s|, i requires 0 <= i < |s| => Mirror(s[i]))
  }

  /** The reversed-alphabet sub-pool, built letter by letter from Uppercase. */
  const ReverseAscii: string := MirroredAlphabet()

  function MirroredAlphabet(): (r: string)
  {
    UppercaseCodes();
    MirrorAll(Uppercase)
  }

  /** The whole pool; a glyph is sampled by a uniformly chosen index into it. */
  const Chars: string := HalfWidthKana + Ascii + ReverseAscii

  /** Every glyph of `s` was drawn from the pool. */
  predicate FromPool(s: seq<char>)
  {
    forall i :: 0 <= i < |s| ==> s[i] in Chars
  }

  /** No element of `s` occurs twice. */
  ghost predicate Distinct<T>(s: seq<T>)
  {
    forall i, j :: 0 <= i < j < |s| ==> s[i] != s[j]
  }

  /** Uppercase is the 26 consecutive code points starting at 'A'. */
  lemma UppercaseCodes()
    ensures |Uppercase| == 26
    ensures forall i :: 0 <= i < 26 ==> Uppercase[i] as int == 'A' as int + i
  {
    assert Uppercase == seq(26, i requires 0 <= i < 26 => ('A' as int + i) as char);
  }

  /**
   * The katakana literal is exactly the 61 consecutive code points
   * U+FF61 .. U+FF9D; the two sound marks U+FF9E and U+FF9F are not in it.
   */
  lemma KanaIsContiguousBlock()
    ensures |HalfWidthKana| == 61
    ensures forall i :: 0 <= i < 61 ==> HalfWidthKana[i] as int == 0xFF61 + i
    ensures HalfWidthKana[60] == '\U{FF9D}'
    ensures '\U{FF9E}' !in HalfWidthKana && '\U{FF9F}' !in HalfWidthKana
  {
    var block := seq(61, i requires 0 <= i < 61 => (0xFF61 + i) as char);
    assert |HalfWidthKana| == |block|;
    forall i | 0 <= i < 31 ensures HalfWidthKana[i] == block[i] {
    }
    forall i | 31 <= i < 61 ensures HalfWidthKana[i] == block[i] {
    }
    assert HalfWidthKana == block;
  }

  /** The mirrored pool is the alphabet read backwards. */
  lemma ReverseAsciiIsReversedAlphabet()
    ensures |ReverseAscii| == 26
    ensures forall i :: 0 <= i < 26 ==> ReverseAscii[i] == Uppercase[25 - i]
    ensures ReverseAscii[0] == 'Z' && ReverseAscii[25] == 'A'
  {
    UppercaseCodes();
  }

  /** In a sequence without repetitions every element occurs once. */
  lemma {:induction false} CountDistinct<T>(s: seq<T>, c: T)
    requires Distinct(s)
    ensures multiset(s)[c] == if c in s then 1 else 0
  {
    if s != [] {
      assert s == [s[0]] + s[1..];
      assert Distinct(s[1..]);
      CountDistinct(s[1..], c);
      assert c == s[0] ==> c !in s[1..];
    }
  }

  /** Ascii is the 26 letters followed by the 10 digits, each by code point. */
  lemma AsciiCodes()
    ensures |Ascii| == 36
    ensures forall i :: 0 <= i < 26 ==> Ascii[i] as int == 'A' as int + i
    ensures forall i :: 26 <= i < 36 ==> Ascii[i] as int == '0' as int + (i - 26)
  {
    UppercaseCodes();
    var digits := "0123456789";
    assert digits == seq(10, i requires 0 <= i < 10 => ('0' as int + i) as char);
    assert forall i :: 26 <= i < 36 ==> Ascii[i] == digits[i - 26];
  }

  /** Each sub-pool, on its own, repeats no glyph. */
  lemma SubPoolsDistinct()
    ensures Distinct(HalfWidthKana) && Distinct(Ascii) && Distinct(ReverseAscii)
  {
    KanaIsContiguousBlock();
    AsciiCodes();
    ReverseAsciiIsReversedAlphabet();
    UppercaseCodes();
  }

  /** The katakana sub-pool holds exactly the code points U+FF61 .. U+FF9D. */
  lemma KanaMembers(c: char)
    ensures c in HalfWidthKana <==> 0xFF61 <= c as int <= 0xFF9D
  {
    KanaIsContiguousBlock();
    if 0xFF61 <= c as int <= 0xFF9D {
      assert HalfWidthKana[c as int - 0xFF61] == c;
    }
  }

  /** The forward sub-pool holds exactly the letters and the digits. */
  lemma AsciiMembers(c: char)
    ensures c in Ascii <==> 'A' <= c <= 'Z' || '0' <= c <= '9'
  {
    AsciiCodes();
    if 'A' <= c <= 'Z' {
      assert Ascii[c as int - 'A' as int] == c;
    } else if '0' <= c <= '9' {
      assert Ascii[26 + (c as int - '0' as int)] == c;
    }
  }

  /** The mirrored sub-pool holds exactly the letters. */
  lemma ReverseMembers(c: char)
    ensures c in ReverseAscii <==> 'A' <= c <= 'Z'
  {
    ReverseAsciiIsReversedAlphabet();
    UppercaseCodes();
    if 'A' <= c <= 'Z' {
      assert ReverseAscii[25 - (c as int - 'A' as int)] == c;
    }
  }

  /** In three sequences without repetitions, an element occurs once per sequence holding it. */
  lemma CountThree<T>(a: seq<T>, b: seq<T>, c: seq<T>, x: T)
    requires Distinct(a) && Distinct(b) && Distinct(c)
    ensures multiset(a + b + c)[x]
            == (if x in a then 1 else 0) + (if x in b then 1 else 0) + (if x in c then 1 else 0)
  {
    assert multiset(a + b + c) == multiset(a) + multiset(b) + multiset(c);
    CountDistinct(a, x);
    CountDistinct(b, x);
    CountDistinct(c, x);
  }

  /** The pool holds 61 + 36 + 26 glyphs. */
  lemma PoolSize()
    ensures |Chars| == 123
  {
    KanaIsContiguousBlock();
    AsciiCodes();
    ReverseAsciiIsReversedAlphabet();
  }

  /**
   * Sampling by a uniform index weights the pool: every letter occurs
   * twice (once forward, once mirrored), every digit and every katakana once.
   */
  lemma PoolWeights(c: char)
    ensures 'A' <= c <= 'Z' ==> multiset(Chars)[c] == 2
    ensures '0' <= c <= '9' ==> multiset(Chars)[c] == 1
    ensures 0xFF61 <= c as int <= 0xFF9D ==> multiset(Chars)[c] == 1
    ensures !('A' <= c <= 'Z' || '0' <= c <= '9' || 0xFF61 <= c as int <= 0xFF9D) ==> multiset(Chars)[c] == 0
  {
    SubPoolsDistinct();
    KanaMembers(c);
    AsciiMembers(c);
    ReverseMembers(c);
    CountThree(HalfWidthKana, Ascii, ReverseAscii, c);
  }
}
