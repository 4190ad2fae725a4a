/**
 * The transliterator: a string that starts with the marker "b/" has the
 * marker removed and every remaining code point replaced by its table
 * value, or kept when it has none; any other string is returned as it is.
 */
module Transliterator {
  import opened Wrappers
  import opened BuckwalterTable

  /** The two-character prefix that tags a string as Buckwalter input. */
  const Marker: string := "b/"

  /** `str.startsWith("b/")`. */
  predicate IsTransliterationRequest(s: string) {
    |s| >= 2 && s[..2] == Marker
  }

  /**
   * `str.substring(2)` as it is reached: only on a string that starts with
   * the ASCII marker, where the two UTF-16 units it skips are exactly the
   * two marker code points. A shorter string gives "", as the start index
   * is clamped to the length.
   */
  function DropMarker(s: string): (r: string)
    ensures IsTransliterationRequest(s) ==> Marker + r == s
    ensures |s| >= 2 ==> |r| == |s| - 2
    ensures |s| < 2 ==> r == ""
  {
    if |s| < 2 then "" else s[2..]
  }

  /**
   * `BUCKWALTER[c] ?? c`: the table value of a key, the character itself
   * otherwise. Either way exactly one code point.
   */
  function MapChar(c: char): (r: string)
    ensures |r| == 1
  {
    Lookup(c).OrElse([c])
  }

  /** A key becomes its single Arabic table value; any other character is kept. */
  lemma MapCharOnKeys(c: char)
    ensures c in Keys ==> Lookup(c) == Some(MapChar(c)) && IsArabic(MapChar(c)[0])
    ensures c !in Keys ==> MapChar(c) == [c]
  {
    LookupDefinedOnKeys(c);
  }

  /**
   * The loop body of `toBuckwalter` applied to a whole payload: nothing is
   * dropped or added, and position i of the result is the image of
   * position i of the payload.
   */
  function Transliterate(s: string): (r: string)
    ensures |r| == |s|
    ensures forall i :: 0 <= i < |s| ==> [r[i]] == MapChar(s[i])
  {
    if s == [] then [] else MapChar(s[0]) + Transliterate(s[1..])
  }

  /**
   * `toBuckwalter`: drop the marker and transliterate the rest. It is only
   * called on marked strings (see Process), where dropping two UTF-16 units
   * and dropping two code points agree.
   */
  function ToBuckwalter(s: string): (r: string)
    ensures |s| >= 2 ==> |r| == |s| - 2
    ensures |s| < 2 ==> r == ""
    ensures forall i :: 2 <= i < |s| ==> [r[i - 2]] == MapChar(s[i])
  {
    Transliterate(DropMarker(s))
  }

  /**
   * `toBuckwalter` as the source writes it: a loop over the payload's code
   * points that appends each one's image to an accumulator.
   */
  method ToBuckwalterLoop(str: string) returns (res: string)
    ensures res == ToBuckwalter(str)
  {
    var payload := DropMarker(str);
    res := "";
    var i := 0;
    while i < |payload|
      invariant 0 <= i <= |payload|
      invariant res == Transliterate(payload[..i])
    {
      TransliterateAppend(payload[..i], [payload[i]]);
      assert payload[..i + 1] == payload[..i] + [payload[i]];
      res := res + MapChar(payload[i]);
      i := i + 1;
    }
    assert payload[..i] == payload;
  }

  /**
   * `buckwalterProccesser`: an absent string gives "", an untagged string
   * is returned unchanged, and a tagged one is transliterated.
   */
  function Process(s: Option<string>): (r: string)
    ensures s.None? ==> r == ""
    ensures s.Some? && !IsTransliterationRequest(s.value) ==> r == s.value
    ensures s.Some? && IsTransliterationRequest(s.value) ==>
      |r| == |s.value| - 2 && forall i :: 0 <= i < |r| ==> [r[i]] == MapChar(s.value[i + 2])
  {
    match s
    case None => ""
    case Some(str) =>
      if IsTransliterationRequest(str) then ToBuckwalter(str) else str
  }

  /** Transliteration distributes over concatenation. */
  lemma {:induction false} TransliterateAppend(s: string, t: string)
    ensures Transliterate(s + t) == Transliterate(s) + Transliterate(t)
  {
    if s == [] {
      assert s + t == t;
    } else {
      var st := s + t;
      assert st[0] == s[0];
      assert st[1..] == s[1..] + t;
      TransliterateAppend(s[1..], t);
      calc {
        Transliterate(st);
        MapChar(s[0]) + Transliterate(s[1..] + t);
        MapChar(s[0]) + (Transliterate(s[1..]) + Transliterate(t));
        (MapChar(s[0]) + Transliterate(s[1..])) + Transliterate(t);
      }
    }
  }

  /** Processing a tagged string distributes over concatenation of payloads. */
  lemma ProcessAppend(s: string, t: string)
    ensures Process(Some(Marker + (s + t))) == Process(Some(Marker + s)) + Process(Some(Marker + t))
  {
    assert (Marker + (s + t))[..2] == Marker;
    assert (Marker + s)[..2] == Marker;
    assert (Marker + t)[..2] == Marker;
    assert (Marker + (s + t))[2..] == s + t;
    assert (Marker + s)[2..] == s;
    assert (Marker + t)[2..] == t;
    TransliterateAppend(s, t);
  }

  /**
   * Every position of a tagged string's payload shows up at the same
   * position of the output: verbatim when it has no table entry, as its
   * table value when it has one.
   */
  lemma NothingDropped(s: string, i: int)
    requires 0 <= i < |s|
    ensures |Process(Some(Marker + s))| == |s|
    ensures s[i] !in Keys ==> Process(Some(Marker + s))[i] == s[i]
    ensures s[i] in Keys ==> Lookup(s[i]) == Some([Process(Some(Marker + s))[i]])
  {
    assert (Marker + s)[..2] == Marker;
    assert (Marker + s)[i + 2] == s[i];
    MapCharOnKeys(s[i]);
  }

  /** A single key after the marker becomes exactly its table value. */
  lemma SingleKey(k: char)
    requires k in Keys
    ensures Lookup(k).Some? && Process(Some(Marker + [k])) == Lookup(k).value
  {
    LookupDefinedOnKeys(k);
    assert (Marker + [k])[..2] == Marker;
    assert (Marker + [k])[2] == k;
  }

  /** The output of a tagged string is never itself tagged. */
  lemma OutputIsUntagged(s: string)
    requires IsTransliterationRequest(s)
    ensures !IsTransliterationRequest(Process(Some(s)))
  {
    var r := Process(Some(s));
    if |r| >= 2 {
      assert [r[0]] == MapChar(s[2]);
      MapCharOnKeys(s[2]);
      assert 'b' in Keys;
      assert r[0] != 'b';
      assert Marker[0] == 'b';
      assert r[..2][0] != Marker[0];
    }
  }

  /** Processing twice is the same as processing once. */
  lemma ProcessIdempotent(s: Option<string>)
    ensures Process(Some(Process(s))) == Process(s)
  {
    match s
    case None =>
    case Some(str) =>
      if IsTransliterationRequest(str) {
        OutputIsUntagged(str);
      }
  }

  /** A payload character that is not itself one of the table's values. */
  predicate NotATableValue(c: char) {
    Inverse(c).None?
  }

  /** MapChar is one-to-one on characters that are not table values. */
  lemma MapCharInjective(a: char, b: char)
    requires NotATableValue(a) && NotATableValue(b)
    requires MapChar(a) == MapChar(b)
    ensures a == b
  {
    MapCharOnKeys(a);
    MapCharOnKeys(b);
    if a in Keys && b in Keys {
      LookupInjective(a, b);
    } else if a in Keys {
      InverseOfLookup(a);
      MapCharOnKeys(b);
      assert false;
    } else if b in Keys {
      InverseOfLookup(b);
      MapCharOnKeys(a);
      assert false;
    }
  }

  /**
   * Two payloads without table values that transliterate alike are equal;
   * in particular payloads written only with table keys.
   */
  lemma TransliterateInjective(s: string, t: string)
    requires forall i :: 0 <= i < |s| ==> NotATableValue(s[i])
    requires forall i :: 0 <= i < |t| ==> NotATableValue(t[i])
    requires Transliterate(s) == Transliterate(t)
    ensures s == t
  {
    forall i | 0 <= i < |s|
      ensures s[i] == t[i]
    {
      MapCharInjective(s[i], t[i]);
    }
  }

  /** Every key is a character that is not a table value. */
  lemma KeyIsNotATableValue(k: char)
    requires k in Keys
    ensures NotATableValue(k)
  {
    if Inverse(k).Some? {
      LookupOfInverse(k);
      LookupDefinedOnKeys(Inverse(k).value);
      KeysAreAscii(k);
    }
  }

  /** The output of a tagged string determines its payload when the payload uses only keys. */
  lemma ProcessDeterminesPayload(s: string, t: string)
    requires forall i :: 0 <= i < |s| ==> s[i] in Keys
    requires forall i :: 0 <= i < |t| ==> t[i] in Keys
    requires Process(Some(Marker + s)) == Process(Some(Marker + t))
    ensures s == t
  {
    assert (Marker + s)[..2] == Marker && (Marker + s)[2..] == s;
    assert (Marker + t)[..2] == Marker && (Marker + t)[2..] == t;
    forall i | 0 <= i < |s| ensures NotATableValue(s[i]) {
      KeyIsNotATableValue(s[i]);
    }
    forall i | 0 <= i < |t| ensures NotATableValue(t[i]) {
      KeyIsNotATableValue(t[i]);
    }
    TransliterateInjective(s, t);
  }

  /**
   * Without the restriction to keys the output does not determine the
   * payload: the key 'A' and its own value Alef give the same output.
   */
  lemma KeyAndValueCollide()
    ensures Process(Some("b/A")) == Process(Some("b/\U{0627}"))
  {
    assert "b/A"[..2] == Marker && "b/A"[2..] == "A";
    assert "b/\U{0627}"[..2] == Marker && "b/\U{0627}"[2..] == "\U{0627}";
    ArabicIsNotKey('\U{0627}');
  }

  /** Absent, empty and untagged inputs come back as "" or unchanged. */
  lemma UntaggedExamples()
    ensures Process(None) == ""
    ensures Process(Some("")) == "" && Process(Some("b")) == "b"
  {
  }

  /** A digit has no table entry and passes through. */
  lemma DigitExample()
    ensures Process(Some("b/1")) == "1"
  {
    assert "b/1"[..2] == Marker && "b/1"[2..] == "1";
    assert Lookup('1') == None;
  }

  /** Alef, lam, meem. */
  lemma AlmExample()
    ensures Process(Some("b/Alm")) == "\U{0627}\U{0644}\U{0645}"
  {
    var s := "b/Alm";
    assert s[..2] == Marker;
    var r := Process(Some(s));
    assert [r[0]] == MapChar('A') == "\U{0627}";
    assert [r[1]] == MapChar('l') == "\U{0644}";
    assert [r[2]] == MapChar('m') == "\U{0645}";
  }

  /** The comma is mapped, the space passes through, and 'b' becomes beh. */
  lemma CommaExample()
    ensures Process(Some("b/, b")) == "\U{060C} \U{0628}"
  {
    var s := "b/, b";
    assert s[..2] == Marker;
    var r := Process(Some(s));
    assert [r[0]] == MapChar(',') == "\U{060C}";
    assert [r[1]] == MapChar(' ') == " ";
    assert [r[2]] == MapChar('b') == "\U{0628}";
  }
}
