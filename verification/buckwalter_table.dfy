/**
 * The Buckwalter code table: a fixed association from 48 ASCII symbols to
 * one Arabic code point each. The table is total only over its keys; any
 * other character has no entry, and the caller decides what to do with it.
 * The rows are written in four groups, in the order the table lists them.
 */
module BuckwalterTable {
  import opened Wrappers
  import AR = ArabicLetters

  /** The letter symbols. */
  const Letters: set<char> := {
    'A', '|', '{', '`', 'b', 'p', 't', 'v', 'j', 'H',
    'x', 'd', '*', 'r', 'z', 's', '$', 'S', 'D', 'T',
    'Z', 'E', 'g', 'f', 'q', 'k', 'l', 'm', 'n', 'h',
    'w', 'Y', 'y'
  }

  /** The short-vowel, tanween, shadda and sukoon symbols. */
  const Diacritics: set<char> := {'F', 'N', 'K', 'a', 'u', 'i', '~', 'o'}

  /** The hamza carriers and the tatweel. */
  const HamzaAndTatweel: set<char> := {'\'', '>', '<', '}', '&', '_'}

  /** The punctuation symbols. */
  const Punctuation: set<char> := {','}

  /** The symbols the table has an entry for. */
  const Keys: set<char> := Letters + Diacritics + HamzaAndTatweel + Punctuation

  /** A code point in the Arabic block U+0600..U+06FF. */
  predicate IsArabic(d: char) {
    0x0600 <= d as int <= 0x06FF
  }

  /** The table rows for the letter symbols. */
  function LookupLetter(c: char): Option<char>
  {
    match c
    case 'A' => Some(AR.Alef)
    case '|' => Some(AR.AlefWithMadda)
    case '{' => Some(AR.AlefWaslah)
    case '`' => Some(AR.SuperscriptAlef)
    case 'b' => Some(AR.Beh)
    case 'p' => Some(AR.TehMarbuta)
    case 't' => Some(AR.Teh)
    case 'v' => Some(AR.Theh)
    case 'j' => Some(AR.Jeem)
    case 'H' => Some(AR.Hah)
    case 'x' => Some(AR.Khah)
    case 'd' => Some(AR.Dal)
    case '*' => Some(AR.Thal)
    case 'r' => Some(AR.Reh)
    case 'z' => Some(AR.Zain)
    case 's' => Some(AR.Seen)
    case '$' => Some(AR.Sheen)
    case 'S' => Some(AR.Sad)
    case 'D' => Some(AR.Dad)
    case 'T' => Some(AR.Tah)
    case 'Z' => Some(AR.Zah)
    case 'E' => Some(AR.Ain)
    case 'g' => Some(AR.Ghain)
    case 'f' => Some(AR.Feh)
    case 'q' => Some(AR.Qaf)
    case 'k' => Some(AR.Kaf)
    case 'l' => Some(AR.Lam)
    case 'm' => Some(AR.Meem)
    case 'n' => Some(AR.Noon)
    case 'h' => Some(AR.Heh)
    case 'w' => Some(AR.Waw)
    case 'Y' => Some(AR.AlefMaksura)
    case 'y' => Some(AR.Yeh)
    case _ => None
  }

  /** The table rows for the diacritic symbols. */
  function LookupDiacritic(c: char): Option<char>
  {
    match c
    case 'F' => Some(AR.Fathatan)
    case 'N' => Some(AR.Dammatan)
    case 'K' => Some(AR.Kasratan)
    case 'a' => Some(AR.Fatha)
    case 'u' => Some(AR.Damma)
    case 'i' => Some(AR.Kasra)
    case '~' => Some(AR.Shadda)
    case 'o' => Some(AR.Sukoon)
    case _ => None
  }

  /** The table rows for the hamza carriers and the tatweel. */
  function LookupHamzaOrTatweel(c: char): Option<char>
  {
    match c
    case '\'' => Some(AR.Hamza)
    case '>' => Some(AR.AlefWithHamzaAbove)
    case '<' => Some(AR.AlefWithHamzaBelow)
    case '}' => Some(AR.YehWithHamzaAbove)
    case '&' => Some(AR.WawWithHamza)
    case '_' => Some(AR.Tatweel)
    case _ => None
  }

  /** The table row for the comma. */
  function LookupPunctuation(c: char): Option<char>
  {
    match c
    case ',' => Some(AR.ArabicComma)
    case _ => None
  }

  /** The code point the table maps `c` to, if `c` is a key. */
  function CodePoint(c: char): Option<char>
  {
    if c in Letters then LookupLetter(c)
    else if c in Diacritics then LookupDiacritic(c)
    else if c in HamzaAndTatweel then LookupHamzaOrTatweel(c)
    else LookupPunctuation(c)
  }

  /**
   * The table lookup `BUCKWALTER[c]`: the mapped string when `c` is a key,
   * None otherwise. Every value is exactly one Arabic code point.
   */
  function Lookup(c: char): (r: Option<string>)
    ensures r.Some? ==> |r.value| == 1
  {
    match CodePoint(c)
    case Some(d) => Some([d])
    case None => None
  }

  /**
   * The reverse of the table, written out independently of it: the key
   * whose value is the code point `d`, if there is one.
   */
  function Inverse(d: char): Option<char>
  {
    match d
    case '\U{0627}' => Some('A')
    case '\U{0622}' => Some('|')
    case '\U{0671}' => Some('{')
    case '\U{0670}' => Some('`')
    case '\U{0628}' => Some('b')
    case '\U{0629}' => Some('p')
    case '\U{062A}' => Some('t')
    case '\U{062B}' => Some('v')
    case '\U{062C}' => Some('j')
    case '\U{062D}' => Some('H')
    case '\U{062E}' => Some('x')
    case '\U{062F}' => Some('d')
    case '\U{0630}' => Some('*')
    case '\U{0631}' => Some('r')
    case '\U{0632}' => Some('z')
    case '\U{0633}' => Some('s')
    case '\U{0634}' => Some('$')
    case '\U{0635}' => Some('S')
    case '\U{0636}' => Some('D')
    case '\U{0637}' => Some('T')
    case '\U{0638}' => Some('Z')
    case '\U{0639}' => Some('E')
    case '\U{063A}' => Some('g')
    case '\U{0641}' => Some('f')
    case '\U{0642}' => Some('q')
    case '\U{0643}' => Some('k')
    case '\U{0644}' => Some('l')
    case '\U{0645}' => Some('m')
    case '\U{0646}' => Some('n')
    case '\U{0647}' => Some('h')
    case '\U{0648}' => Some('w')
    case '\U{0649}' => Some('Y')
    case '\U{064A}' => Some('y')
    case '\U{064B}' => Some('F')
    case '\U{064C}' => Some('N')
    case '\U{064D}' => Some('K')
    case '\U{064E}' => Some('a')
    case '\U{064F}' => Some('u')
    case '\U{0650}' => Some('i')
    case '\U{0651}' => Some('~')
    case '\U{0652}' => Some('o')
    case '\U{0621}' => Some('\'')
    case '\U{0623}' => Some('>')
    case '\U{0625}' => Some('<')
    case '\U{0626}' => Some('}')
    case '\U{0624}' => Some('&')
    case '\U{0640}' => Some('_')
    case '\U{060C}' => Some(',')
    case _ => None
  }

  /** Every letter symbol is a printable ASCII character. */
  lemma LettersAreAscii(k: char)
    requires k in Letters
    ensures 0x21 <= k as int <= 0x7E
  {
  }

  /** Every other key is a printable ASCII character too. */
  lemma MarksAreAscii(k: char)
    requires k in Diacritics + HamzaAndTatweel + Punctuation
    ensures 0x21 <= k as int <= 0x7E
  {
  }

  /** Every key is a printable ASCII character. */
  lemma KeysAreAscii(k: char)
    requires k in Keys
    ensures 0x21 <= k as int <= 0x7E
  {
    if k in Letters {
      LettersAreAscii(k);
    } else {
      MarksAreAscii(k);
    }
  }

  /** No Arabic code point is a key. */
  lemma ArabicIsNotKey(d: char)
    requires IsArabic(d)
    ensures d !in Keys
  {
    if d in Keys {
      KeysAreAscii(d);
    }
  }

  /** The letter rows are defined exactly on the letter symbols, with Arabic values. */
  lemma LetterRows(c: char)
    ensures LookupLetter(c).Some? <==> c in Letters
    ensures LookupLetter(c).Some? ==> IsArabic(LookupLetter(c).value)
  {
  }

  /** The remaining rows are defined exactly on their symbols, with Arabic values. */
  lemma MarkRows(c: char)
    ensures LookupDiacritic(c).Some? <==> c in Diacritics
    ensures LookupDiacritic(c).Some? ==> IsArabic(LookupDiacritic(c).value)
    ensures LookupHamzaOrTatweel(c).Some? <==> c in HamzaAndTatweel
    ensures LookupHamzaOrTatweel(c).Some? ==> IsArabic(LookupHamzaOrTatweel(c).value)
    ensures LookupPunctuation(c).Some? <==> c in Punctuation
    ensures LookupPunctuation(c).Some? ==> IsArabic(LookupPunctuation(c).value)
  {
  }

  /**
   * The table has an entry exactly for the keys, and every entry is a single
   * Arabic code point.
   */
  lemma LookupDefinedOnKeys(c: char)
    ensures Lookup(c).Some? <==> c in Keys
    ensures Lookup(c).Some? ==> |Lookup(c).value| == 1 && IsArabic(Lookup(c).value[0])
  {
    LetterRows(c);
    MarkRows(c);
  }

  /** Inverse undoes the letter rows. */
  lemma InverseOfLetter(c: char)
    requires c in Letters
    ensures Inverse(LookupLetter(c).value) == Some(c)
  {
  }

  /** Inverse undoes the diacritic rows. */
  lemma InverseOfDiacritic(c: char)
    requires c in Diacritics
    ensures Inverse(LookupDiacritic(c).value) == Some(c)
  {
  }

  /** Inverse undoes the hamza and tatweel rows. */
  lemma InverseOfHamzaOrTatweel(c: char)
    requires c in HamzaAndTatweel
    ensures Inverse(LookupHamzaOrTatweel(c).value) == Some(c)
  {
  }

  /** Inverse undoes the comma row. */
  lemma InverseOfPunctuation(c: char)
    requires c in Punctuation
    ensures Inverse(LookupPunctuation(c).value) == Some(c)
  {
  }

  /** Inverse undoes the table on every key. */
  lemma InverseOfLookup(c: char)
    requires c in Keys
    ensures Lookup(c).Some? && Inverse(Lookup(c).value[0]) == Some(c)
  {
    LookupDefinedOnKeys(c);
    if c in Letters {
      InverseOfLetter(c);
    } else if c in Diacritics {
      InverseOfDiacritic(c);
    } else if c in HamzaAndTatweel {
      InverseOfHamzaOrTatweel(c);
    } else {
      InverseOfPunctuation(c);
    }
  }

  // The next six lemmas each cover one range of code points; together they
  // cover everything Inverse knows. The split is there only so that each
  // proof asks the solver to consider a few table rows rather than all 48.

  /** CodePoint undoes Inverse on the code points below U+0627. */
  lemma CodePointOfInverseBelow0627(d: char)
    requires Inverse(d).Some? && d as int < 0x0627
    ensures CodePoint(Inverse(d).value) == Some(d)
  {
  }

  /** CodePoint undoes Inverse on the code points from U+0627 to U+062E. */
  lemma CodePointOfInverseBelow062F(d: char)
    requires Inverse(d).Some? && 0x0627 <= d as int < 0x062F
    ensures CodePoint(Inverse(d).value) == Some(d)
  {
  }

  /** CodePoint undoes Inverse on the code points from U+062F to U+0636. */
  lemma CodePointOfInverseBelow0637(d: char)
    requires Inverse(d).Some? && 0x062F <= d as int < 0x0637
    ensures CodePoint(Inverse(d).value) == Some(d)
  {
  }

  /** CodePoint undoes Inverse on the code points from U+0637 to U+0644. */
  lemma CodePointOfInverseBelow0645(d: char)
    requires Inverse(d).Some? && 0x0637 <= d as int < 0x0645
    ensures CodePoint(Inverse(d).value) == Some(d)
  {
  }

  /** CodePoint undoes Inverse on the code points from U+0645 to U+064C. */
  lemma CodePointOfInverseBelow064D(d: char)
    requires Inverse(d).Some? && 0x0645 <= d as int < 0x064D
    ensures CodePoint(Inverse(d).value) == Some(d)
  {
  }

  /** CodePoint undoes Inverse on the code points from U+064D up. */
  lemma CodePointOfInverseFrom064D(d: char)
    requires Inverse(d).Some? && 0x064D <= d as int
    ensures CodePoint(Inverse(d).value) == Some(d)
  {
  }

  /** The table undoes Inverse on every code point Inverse knows. */
  lemma LookupOfInverse(d: char)
    requires Inverse(d).Some?
    ensures Inverse(d).value in Keys && Lookup(Inverse(d).value) == Some([d])
  {
    if d as int < 0x0627 {
      CodePointOfInverseBelow0627(d);
    } else if d as int < 0x062F {
      CodePointOfInverseBelow062F(d);
    } else if d as int < 0x0637 {
      CodePointOfInverseBelow0637(d);
    } else if d as int < 0x0645 {
      CodePointOfInverseBelow0645(d);
    } else if d as int < 0x064D {
      CodePointOfInverseBelow064D(d);
    } else {
      CodePointOfInverseFrom064D(d);
    }
    LookupDefinedOnKeys(Inverse(d).value);
  }

  /** The table values are pairwise distinct: two keys with equal values are equal. */
  lemma LookupInjective(a: char, b: char)
    requires a in Keys && b in Keys
    requires Lookup(a) == Lookup(b)
    ensures a == b
  {
    InverseOfLookup(a);
    InverseOfLookup(b);
  }

  /** No table value is itself a key, so a mapped character is never mapped again. */
  lemma ValueIsNotKey(c: char)
    requires c in Keys
    ensures Lookup(c).Some? && Lookup(c).value[0] !in Keys
  {
    LookupDefinedOnKeys(c);
    var d := Lookup(c).value[0];
    if d in Keys {
      KeysAreAscii(d);
    }
  }
}
