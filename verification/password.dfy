/**
 The password generator's helpers: the character set built from the option
 switches, the password drawn from it, the strength level read off the
 entropy, and the copy button's guard.
 */
module PasswordGen {
  import opened Seqs

  /** The printable ASCII characters from `lo` to `hi`, in code order. */
  function CharRange(lo: char, hi: char): (r: string)
    requires lo <= hi <= '~'
    ensures |r| == hi as int - lo as int + 1
    ensures forall k :: 0 <= k < |r| ==> r[k] as int == lo as int + k
  {
    seq(hi as int - lo as int + 1, k requires 0 <= k <= hi as int - lo as int => (lo as int + k) as char)
  }

  /** A range holds exactly the characters between its ends. */
  lemma CharRangeMembers(lo: char, hi: char, c: char)
    requires lo <= hi <= '~'
    ensures c in CharRange(lo, hi) <==> lo <= c <= hi
  {
    if lo <= c <= hi {
      assert CharRange(lo, hi)[c as int - lo as int] == c;
    }
  }

  /** Python's `string.ascii_lowercase`, `ascii_uppercase` and `digits`. */
  const Lowercase := CharRange('a', 'z')
  const Uppercase := CharRange('A', 'Z')
  const Digits := CharRange('0', '9')
  /** Python's `string.punctuation`: the four runs of ASCII punctuation, in
      code order. */
  const Punctuation := CharRange('!', '/') + CharRange(':', '@') + CharRange('[', '`') + CharRange('{', '~')

  /** Which characters each class holds. */
  lemma ClassMembers(c: char)
    ensures c in Lowercase <==> 'a' <= c <= 'z'
    ensures c in Uppercase <==> 'A' <= c <= 'Z'
    ensures c in Digits <==> '0' <= c <= '9'
    ensures c in Punctuation <==> ('!' <= c <= '/' || ':' <= c <= '@' || '[' <= c <= '`' || '{' <= c <= '~')
  {
    CharRangeMembers('a', 'z', c);
    CharRangeMembers('A', 'Z', c);
    CharRangeMembers('0', '9', c);
    CharRangeMembers('!', '/', c);
    CharRangeMembers(':', '@', c);
    CharRangeMembers('[', '`', c);
    CharRangeMembers('{', '~', c);
  }

  /** The class sizes: 26, 26, 10 and 32 characters. */
  lemma ClassSizes()
    ensures |Lowercase| == 26 && |Uppercase| == 26 && |Digits| == 10 && |Punctuation| == 32
  {
  }
  /** Characters that are easily mistaken for one another. */
  const Ambiguous := "O0Il1|`'\""

  /** What the password field shows when every class is switched off. */
  const NoCharsetText := "(no charset selected)"

  /** The text with every ambiguous character removed, the others kept in
      order. */
  function DropAmbiguous(s: string): (r: string)
    ensures IsSubsequence(r, s)
    ensures forall c :: c in r <==> c in s && c !in Ambiguous
    ensures forall c {:trigger multiset(r)[c]} :: multiset(r)[c] == if c in Ambiguous then 0 else multiset(s)[c]
  {
    assert s != [] ==> s == [s[0]] + s[1..];
    if s == [] then []
    else if s[0] in Ambiguous then DropAmbiguous(s[1..])
    else
      var r := [s[0]] + DropAmbiguous(s[1..]);
      assert r[1..] == DropAmbiguous(s[1..]);
      r
  }

  /** The selected classes in the fixed order lower, upper, digits,
      punctuation. */
  function Classes(uppercase: bool, lowercase: bool, numbers: bool, special: bool): string
  {
    (if lowercase then Lowercase else "")
    + (if uppercase then Uppercase else "")
    + (if numbers then Digits else "")
    + (if special then Punctuation else "")
  }

  /** `build_charset`: the selected classes, less the ambiguous characters
      when asked. */
  function BuildCharset(uppercase: bool, lowercase: bool, numbers: bool, special: bool,
                        excludeAmbiguous: bool): (r: string)
    ensures forall c :: c in r <==>
              && ((lowercase && c in Lowercase) || (uppercase && c in Uppercase)
                  || (numbers && c in Digits) || (special && c in Punctuation))
              && !(excludeAmbiguous && c in Ambiguous)
    ensures excludeAmbiguous ==> IsSubsequence(r, Classes(uppercase, lowercase, numbers, special))
    ensures excludeAmbiguous ==> r == DropAmbiguous(Classes(uppercase, lowercase, numbers, special))
    ensures !excludeAmbiguous ==> r == Classes(uppercase, lowercase, numbers, special)
  {
    var charset := Classes(uppercase, lowercase, numbers, special);
    if excludeAmbiguous then DropAmbiguous(charset) else charset
  }

  /** Excluding the ambiguous characters never lengthens the character set,
      and it removes nothing else. */
  lemma ExcludingShrinksCharset(uppercase: bool, lowercase: bool, numbers: bool, special: bool)
    ensures |BuildCharset(uppercase, lowercase, numbers, special, true)|
            <= |BuildCharset(uppercase, lowercase, numbers, special, false)|
    ensures forall c :: c in BuildCharset(uppercase, lowercase, numbers, special, false) ==>
              (c in BuildCharset(uppercase, lowercase, numbers, special, true) <==> c !in Ambiguous)
  {
    SubsequenceLength(BuildCharset(uppercase, lowercase, numbers, special, true),
                      Classes(uppercase, lowercase, numbers, special));
  }

  /** The character set is empty exactly when every class is switched off,
      whether or not ambiguous characters are excluded. */
  lemma CharsetEmptyIffNoClass(uppercase: bool, lowercase: bool, numbers: bool, special: bool,
                               excludeAmbiguous: bool)
    ensures BuildCharset(uppercase, lowercase, numbers, special, excludeAmbiguous) == []
            <==> !uppercase && !lowercase && !numbers && !special
  {
    var r := BuildCharset(uppercase, lowercase, numbers, special, excludeAmbiguous);
    ClassMembers('a');
    ClassMembers('A');
    ClassMembers('2');
    ClassMembers('!');
    if lowercase {
      assert 'a' in r;
    } else if uppercase {
      assert 'A' in r;
    } else if numbers {
      assert '2' in r;
    } else if special {
      assert '!' in r;
    }
  }

  /** No space ever appears in a character set. */
  lemma SpaceNeverInCharset(uppercase: bool, lowercase: bool, numbers: bool, special: bool,
                            excludeAmbiguous: bool)
    ensures ' ' !in BuildCharset(uppercase, lowercase, numbers, special, excludeAmbiguous)
  {
    ClassMembers(' ');
  }

  /** `n` characters, the `k`-th at whatever position of `charset` the `k`-th
      draw picks. */
  function Draws(n: nat, charset: string, pick: nat -> nat): (r: string)
    requires charset != []
    ensures |r| == n
    ensures forall k :: 0 <= k < n ==> r[k] == charset[pick(k) % |charset|]
  {
    if n == 0 then []
    else Draws(n - 1, charset, pick) + [charset[pick(n - 1) % |charset|]]
  }

  /** `generate_password`: nothing for an empty set; otherwise `length`
      independent draws (none for a negative length, as `range` gives none).
      The random source is the function `pick`. */
  function GeneratePassword(length: int, charset: string, pick: nat -> nat): (r: string)
    ensures charset == [] ==> r == ""
    ensures charset != [] ==> |r| == (if length < 0 then 0 else length)
    ensures forall k :: 0 <= k < |r| ==> r[k] in charset
    ensures forall k :: 0 <= k < |r| ==> r[k] == charset[pick(k) % |charset|]
  {
    if charset == [] then ""
    else Draws(if length < 0 then 0 else length, charset, pick)
  }

  /** The first position of `c` in `s`. */
  function IndexOf(s: string, c: char): (i: nat)
    requires c in s
    ensures i < |s| && s[i] == c
  {
    if s[0] == c then 0 else 1 + IndexOf(s[1..], c)
  }

  lemma SmallMod(i: nat, n: nat)
    requires i < n
    ensures i % n == i
  {
  }

  /** The draws that pick, for each position, the first place of the
      wanted character in the set. */
  function PickFor(p: string, charset: string): nat -> nat
    requires forall k :: 0 <= k < |p| ==> p[k] in charset
  {
    (k: nat) => if k < |p| then IndexOf(charset, p[k]) else 0
  }

  /** Every password of the right length over the set can come out: the
      draws that pick its characters produce it. */
  lemma GenerateReachesAll(length: int, charset: string, p: string)
    requires charset != [] && |p| == length
    requires forall k :: 0 <= k < |p| ==> p[k] in charset
    ensures GeneratePassword(length, charset, PickFor(p, charset)) == p
  {
    var pick := PickFor(p, charset);
    var r := GeneratePassword(length, charset, pick);
    forall k | 0 <= k < |p|
      ensures r[k] == p[k]
    {
      var i := IndexOf(charset, p[k]);
      assert pick(k) == i;
      SmallMod(i, |charset|);
    }
  }

  /** The entropy thresholds between the five strength levels. */
  const Thresholds: seq<real> := [28.0, 40.0, 60.0, 80.0]

  /** How many of `ts` the entropy has reached. */
  function Reached(ts: seq<real>, entropy: real): nat
  {
    if ts == [] then 0 else (if ts[0] <= entropy then 1 else 0) + Reached(ts[1..], entropy)
  }

  /** `strength_level`: 0 (very weak) to 4 (very strong), the number of
      thresholds the entropy has reached. */
  function StrengthLevel(entropy: real): (r: nat)
    ensures r <= 4
  {
    if entropy < 28.0 then 0
    else if entropy < 40.0 then 1
    else if entropy < 60.0 then 2
    else if entropy < 80.0 then 3
    else 4
  }

  /** The level is the number of thresholds reached. */
  lemma StrengthCountsThresholds(entropy: real)
    ensures StrengthLevel(entropy) == Reached(Thresholds, entropy)
  {
    var e := entropy;
    assert [80.0][1..] == [];
    assert Reached([80.0], e) == (if 80.0 <= e then 1 else 0);
    assert [60.0, 80.0][1..] == [80.0];
    assert Reached([60.0, 80.0], e) == (if 60.0 <= e then 1 else 0) + Reached([80.0], e);
    assert [40.0, 60.0, 80.0][1..] == [60.0, 80.0];
    assert Reached([40.0, 60.0, 80.0], e) == (if 40.0 <= e then 1 else 0) + Reached([60.0, 80.0], e);
    assert Thresholds[1..] == [40.0, 60.0, 80.0];
  }

  /** More entropy never means a lower level. */
  lemma StrengthMonotone(a: real, b: real)
    requires a <= b
    ensures StrengthLevel(a) <= StrengthLevel(b)
  {
  }

  /** The level steps up exactly at each threshold. */
  lemma StrengthSteps(i: nat, e: real)
    requires i < |Thresholds| && e < Thresholds[i]
    ensures StrengthLevel(e) <= i
    ensures StrengthLevel(Thresholds[i]) == i + 1
  {
  }

  // The copy button: `if not pw or pw.startswith("(")` refuses to copy.

  /** The guard as written: empty text and any text starting with `(`. */
  predicate CanCopyAsWritten(pw: string)
  {
    pw != [] && pw[0] != '('
  }

  /** The guard as intended: empty text and the no-charset message. */
  predicate CanCopy(pw: string)
  {
    pw != [] && pw != NoCharsetText
  }

  /** `string.punctuation` has 32 characters and `(` is the eighth. */
  lemma PunctuationOpenParen()
    ensures |Punctuation| == 32 && Punctuation[7] == '('
  {
    assert Punctuation[7] == CharRange('!', '/')[7];
  }

  /** Four draws of index 7 from the punctuation class give `((((`. */
  lemma FourOpenParens()
    ensures GeneratePassword(4, Punctuation, k => 7) == "(((("
  {
    PunctuationOpenParen();
    var pw := GeneratePassword(4, Punctuation, k => 7);
    forall k | 0 <= k < 4
      ensures pw[k] == '('
    {
      assert pw[k] == Punctuation[7 % 32];
    }
  }

  /** A real password over the punctuation class can start with `(`, and the
      guard as written then refuses to copy it: four draws of `(` give
      `((((`. */
  lemma CopyGuardRefusesRealPassword()
    ensures var pw := GeneratePassword(4, BuildCharset(false, false, false, true, false), k => 7);
            && pw == "((((" && !CanCopyAsWritten(pw) && CanCopy(pw)
  {
    assert Classes(false, false, false, true) == Punctuation;
    FourOpenParens();
  }

  /** The intended guard copies every non-empty generated password and
      refuses only the two non-passwords. */
  lemma CopyGuardAcceptsGenerated(uppercase: bool, lowercase: bool, numbers: bool, special: bool,
                                  excludeAmbiguous: bool, length: int, pick: nat -> nat)
    requires (uppercase || lowercase || numbers || special) && length > 0
    ensures CanCopy(GeneratePassword(length,
                      BuildCharset(uppercase, lowercase, numbers, special, excludeAmbiguous), pick))
    ensures !CanCopy("") && !CanCopy(NoCharsetText)
  {
    var charset := BuildCharset(uppercase, lowercase, numbers, special, excludeAmbiguous);
    CharsetEmptyIffNoClass(uppercase, lowercase, numbers, special, excludeAmbiguous);
    SpaceNeverInCharset(uppercase, lowercase, numbers, special, excludeAmbiguous);
    assert NoCharsetText[3] == ' ';
  }
}
