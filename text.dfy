/**
 * TextNormalizer: `normalizeText` of script.js, plus the two string
 * operations the engine leans on, `String.prototype.trim` and
 * `String.prototype.includes`.
 *
 * A JavaScript string is modelled as a sequence of Unicode scalar values.
 * Lower-casing and canonical decomposition are modelled concretely for
 * Basic Latin and Latin-1 (the letters a Spanish-language catalog uses);
 * every other character passes through both unchanged.
 */
module Text {
  import opened Wrappers

  // ---------------------------------------------------------------------
  // Lower-casing (String.prototype.toLowerCase)
  // ---------------------------------------------------------------------

  /** Upper-case letters of Basic Latin and Latin-1: A-Z and U+00C0..U+00DE except U+00D7. */
  predicate IsUpper(c: char)
  {
    ('A' <= c <= 'Z') || (0xC0 <= c as int <= 0xDE && c as int != 0xD7)
  }

  /** Each upper-case letter maps to the letter 0x20 code points later. */
  function LowerChar(c: char): (d: char)
    ensures !IsUpper(d)
    ensures !IsUpper(c) ==> d == c
    ensures IsUpper(c) ==> d as int == c as int + 0x20
  {
    if IsUpper(c) then (c as int + 0x20) as char else c
  }

  function Lower(s: string): (r: string)
    ensures |r| == |s|
    ensures forall i :: 0 <= i < |s| ==> r[i] == LowerChar(s[i])
  {
    seq(|s|, i requires 0 <= i < |s| => LowerChar(s[i]))
  }

  predicate NoUpper(s: string)
  {
    forall i :: 0 <= i < |s| ==> !IsUpper(s[i])
  }

  // ---------------------------------------------------------------------
  // Canonical decomposition (String.prototype.normalize('NFD'))
  // ---------------------------------------------------------------------

  /** The combining diacritical marks U+0300..U+036F that normalizeText deletes. */
  predicate IsMark(c: char)
  {
    0x300 <= c as int <= 0x36F
  }

  /**
   * Canonical decompositions of the lower-case precomposed letters of
   * Latin-1 (Unicode character database): base letter and combining mark.
   */
  const LowerDecompositions: map<char, (char, char)> := map[
    '\U{00E0}' := ('a', '\U{0300}'), '\U{00E1}' := ('a', '\U{0301}'), '\U{00E2}' := ('a', '\U{0302}'),
    '\U{00E3}' := ('a', '\U{0303}'), '\U{00E4}' := ('a', '\U{0308}'), '\U{00E5}' := ('a', '\U{030A}'),
    '\U{00E7}' := ('c', '\U{0327}'),
    '\U{00E8}' := ('e', '\U{0300}'), '\U{00E9}' := ('e', '\U{0301}'), '\U{00EA}' := ('e', '\U{0302}'),
    '\U{00EB}' := ('e', '\U{0308}'),
    '\U{00EC}' := ('i', '\U{0300}'), '\U{00ED}' := ('i', '\U{0301}'), '\U{00EE}' := ('i', '\U{0302}'),
    '\U{00EF}' := ('i', '\U{0308}'),
    '\U{00F1}' := ('n', '\U{0303}'),
    '\U{00F2}' := ('o', '\U{0300}'), '\U{00F3}' := ('o', '\U{0301}'), '\U{00F4}' := ('o', '\U{0302}'),
    '\U{00F5}' := ('o', '\U{0303}'), '\U{00F6}' := ('o', '\U{0308}'),
    '\U{00F9}' := ('u', '\U{0300}'), '\U{00FA}' := ('u', '\U{0301}'), '\U{00FB}' := ('u', '\U{0302}'),
    '\U{00FC}' := ('u', '\U{0308}'),
    '\U{00FD}' := ('y', '\U{0301}'), '\U{00FF}' := ('y', '\U{0308}')
  ]

  /** Every decomposition is a lower-case ASCII base letter followed by a mark. */
  lemma DecompositionShape(c: char)
    requires c in LowerDecompositions
    ensures 'a' <= LowerDecompositions[c].0 <= 'z'
    ensures IsMark(LowerDecompositions[c].1)
  {
  }

  /** Precomposed upper-case letters decompose like their lower-case partner, with an upper-case base. */
  function Decompose(c: char): (r: seq<char>)
    ensures 1 <= |r| <= 2
  {
    if c in LowerDecompositions then
      [LowerDecompositions[c].0, LowerDecompositions[c].1]
    else if IsUpper(c) && c as int >= 0xC0 && LowerChar(c) in LowerDecompositions then
      DecompositionShape(LowerChar(c));
      [(LowerDecompositions[LowerChar(c)].0 as int - 0x20) as char, LowerDecompositions[LowerChar(c)].1]
    else
      [c]
  }

  /** Decomposition never drops a char and at most doubles the length. */
  function Nfd(s: string): (r: string)
    ensures |s| <= |r| <= 2 * |s|
  {
    if s == [] then [] else Decompose(s[0]) + Nfd(s[1..])
  }

  // ---------------------------------------------------------------------
  // Removal of combining marks (.replace(/[̀-ͯ]/g, ''))
  // ---------------------------------------------------------------------

  /** Deleting the marks never lengthens and leaves no mark behind. */
  function StripMarks(s: string): (r: string)
    ensures |r| <= |s|
    ensures NoMarks(r)
  {
    if s == [] then []
    else if IsMark(s[0]) then StripMarks(s[1..])
    else [s[0]] + StripMarks(s[1..])
  }

  predicate NoMarks(s: string)
  {
    forall i :: 0 <= i < |s| ==> !IsMark(s[i])
  }

  // ---------------------------------------------------------------------
  // normalizeText (script.js:13-16)
  // ---------------------------------------------------------------------

  /** JavaScript truthiness of an optional string: absent and "" are falsy. */
  predicate Truthy(s: Option<string>)
  {
    s.Some? && s.value != ""
  }

  /** `s || ''`: the string itself when truthy, else the empty string. */
  function OrEmpty(s: Option<string>): (r: string)
    ensures Truthy(s) <==> r != ""
    ensures Truthy(s) ==> r == s.value
  {
    if Truthy(s) then s.value else ""
  }

  function NormalizeText(s: Option<string>): (r: string)
    ensures !Truthy(s) ==> r == ""
    ensures NoMarks(r)
    ensures NoUpper(r)
  {
    if !Truthy(s) then "" else
      NfdKeepsNoUpper(Lower(s.value));
      StripMarksProps(Nfd(Lower(s.value)));
      StripMarks(Nfd(Lower(s.value)))
  }

  // ---------------------------------------------------------------------
  // Lemmas
  // ---------------------------------------------------------------------

  /** Chars that normalization puts out are fixed points of every stage. */
  predicate Settled(c: char)
  {
    !IsUpper(c) && c !in LowerDecompositions
  }

  /** A char that is not upper-case decomposes into settled chars and marks. */
  lemma DecomposeOutput(c: char)
    requires !IsUpper(c)
    ensures forall k :: 0 <= k < |Decompose(c)| ==> Settled(Decompose(c)[k]) || IsMark(Decompose(c)[k])
  {
    if c in LowerDecompositions {
      DecompositionShape(c);
      assert Decompose(c) == [LowerDecompositions[c].0, LowerDecompositions[c].1];
    } else {
      assert Decompose(c) == [c];
    }
  }

  lemma {:induction false} NfdKeepsNoUpper(s: string)
    requires NoUpper(s)
    ensures NoUpper(Nfd(s))
    ensures forall i :: 0 <= i < |Nfd(s)| ==> Settled(Nfd(s)[i]) || IsMark(Nfd(s)[i])
  {
    if s != [] {
      var head, rest := Decompose(s[0]), Nfd(s[1..]);
      assert Nfd(s) == head + rest;
      assert NoUpper(s[1..]) by {
        forall i | 0 <= i < |s[1..]| ensures !IsUpper(s[1..][i]) { assert s[1..][i] == s[i + 1]; }
      }
      NfdKeepsNoUpper(s[1..]);
      DecomposeOutput(s[0]);
      forall i | 0 <= i < |head + rest| ensures Settled((head + rest)[i]) || IsMark((head + rest)[i]) {
        if i < |head| { assert (head + rest)[i] == head[i]; } else { assert (head + rest)[i] == rest[i - |head|]; }
      }
    }
  }

  lemma {:induction false} StripMarksProps(s: string)
    ensures NoMarks(StripMarks(s))
    ensures |StripMarks(s)| <= |s|
    ensures forall i :: 0 <= i < |StripMarks(s)| ==> StripMarks(s)[i] in s
    ensures NoMarks(s) ==> StripMarks(s) == s
  {
    if s != [] {
      StripMarksProps(s[1..]);
      if !IsMark(s[0]) {
        var t := StripMarks(s[1..]);
        assert StripMarks(s) == [s[0]] + t;
        forall i | 0 <= i < |[s[0]] + t| ensures ([s[0]] + t)[i] in s {
          if i > 0 { assert t[i - 1] in s[1..]; }
        }
        if NoMarks(s) { assert NoMarks(s[1..]) by { forall i | 0 <= i < |s[1..]| ensures !IsMark(s[1..][i]) { assert s[1..][i] == s[i + 1]; } } }
      } else {
        forall i | 0 <= i < |StripMarks(s)| ensures StripMarks(s)[i] in s {
          assert StripMarks(s)[i] in s[1..];
        }
      }
    }
  }

  /** Decomposition leaves alone a string that has only settled chars and marks. */
  lemma {:induction false} NfdIdentity(s: string)
    requires forall i :: 0 <= i < |s| ==> Settled(s[i]) || IsMark(s[i])
    ensures Nfd(s) == s
  {
    if s != [] {
      assert !IsUpper(s[0]) && s[0] !in LowerDecompositions by {
        if IsMark(s[0]) { } else { assert Settled(s[0]); }
      }
      NfdIdentity(s[1..]);
      assert s == [s[0]] + s[1..];
    }
  }

  /** No output of normalizeText contains a U+0300..U+036F mark, and it is idempotent. */
  lemma NormalizeIdempotent(s: Option<string>)
    ensures NormalizeText(Some(NormalizeText(s))) == NormalizeText(s)
  {
    var r := NormalizeText(s);
    if Truthy(s) {
      var l := Lower(s.value);
      NfdKeepsNoUpper(l);
      StripMarksProps(Nfd(l));
      assert forall i :: 0 <= i < |r| ==> Settled(r[i]) by {
        forall i | 0 <= i < |r| ensures Settled(r[i]) {
          assert r[i] in Nfd(l);
          assert !IsMark(r[i]);
        }
      }
      assert Lower(r) == r;
      NfdIdentity(r);
      StripMarksProps(r);
    }
  }

  /** Lower-casing first changes nothing: normalization is case-insensitive. */
  lemma NormalizeIgnoresCase(s: string)
    ensures NormalizeText(Some(Lower(s))) == NormalizeText(Some(s))
  {
    assert Lower(Lower(s)) == Lower(s);
  }

  /** An accented Latin-1 letter, either case, normalizes to its bare ASCII letter. */
  lemma NormalizeStripsAccent(c: char)
    requires LowerChar(c) in LowerDecompositions
    ensures NormalizeText(Some([c])) == [LowerDecompositions[LowerChar(c)].0]
  {
    var l := LowerChar(c);
    DecompositionShape(l);
    assert Lower([c]) == [l];
    assert Nfd([l]) == [LowerDecompositions[l].0, LowerDecompositions[l].1];
    assert StripMarks([LowerDecompositions[l].1]) == [];
  }

  lemma {:induction false} NfdAppend(a: string, b: string)
    ensures Nfd(a + b) == Nfd(a) + Nfd(b)
  {
    if a == [] {
      assert a + b == b;
    } else {
      assert (a + b)[0] == a[0] && (a + b)[1..] == a[1..] + b;
      NfdAppend(a[1..], b);
    }
  }

  lemma {:induction false} StripMarksAppend(a: string, b: string)
    ensures StripMarks(a + b) == StripMarks(a) + StripMarks(b)
  {
    if a == [] {
      assert a + b == b;
    } else {
      assert (a + b)[0] == a[0] && (a + b)[1..] == a[1..] + b;
      StripMarksAppend(a[1..], b);
    }
  }

  /** Normalization works piece by piece: it distributes over concatenation. */
  lemma NormalizeAppend(a: string, b: string)
    ensures NormalizeText(Some(a + b)) == NormalizeText(Some(a)) + NormalizeText(Some(b))
  {
    assert Lower(a + b) == Lower(a) + Lower(b);
    NfdAppend(Lower(a), Lower(b));
    StripMarksAppend(Nfd(Lower(a)), Nfd(Lower(b)));
  }

  /** Text without upper-case letters, accented letters and marks is already normalized. */
  lemma NormalizeSettled(s: string)
    requires forall i :: 0 <= i < |s| ==> Settled(s[i]) && !IsMark(s[i])
    ensures NormalizeText(Some(s)) == s
  {
    assert Lower(s) == s;
    NfdIdentity(s);
    StripMarksProps(s);
  }

  // ---------------------------------------------------------------------
  // String.prototype.includes
  // ---------------------------------------------------------------------

  predicate StartsWith(s: string, p: string)
  {
    |p| <= |s| && s[..|p|] == p
  }

  /** `hay.includes(needle)`: needle occurs at some position of hay. */
  predicate Includes(hay: string, needle: string)
    ensures Includes(hay, needle) ==> |needle| <= |hay|
    ensures StartsWith(hay, needle) ==> Includes(hay, needle)
    decreases |hay|
  {
    StartsWith(hay, needle) || (hay != [] && Includes(hay[1..], needle))
  }

  /** needle sits in hay at offset k. */
  predicate OccursAt(hay: string, needle: string, k: int)
  {
    0 <= k && k + |needle| <= |hay| && hay[k..k + |needle|] == needle
  }

  /** Includes is exactly "occurs at some offset". */
  lemma {:induction false} IncludesIff(hay: string, needle: string)
    ensures Includes(hay, needle) <==> exists k :: OccursAt(hay, needle, k)
  {
    if Includes(hay, needle) {
      if !StartsWith(hay, needle) {
        IncludesIff(hay[1..], needle);
        var k :| OccursAt(hay[1..], needle, k);
        assert hay[k + 1..k + 1 + |needle|] == hay[1..][k..k + |needle|];
        assert OccursAt(hay, needle, k + 1);
      } else {
        assert OccursAt(hay, needle, 0);
      }
    }
    if exists k :: OccursAt(hay, needle, k) {
      var k :| OccursAt(hay, needle, k);
      if k > 0 {
        assert hay[1..][k - 1..k - 1 + |needle|] == hay[k..k + |needle|];
        assert OccursAt(hay[1..], needle, k - 1);
        IncludesIff(hay[1..], needle);
      } else {
        assert StartsWith(hay, needle);
      }
    }
  }

  /** The empty needle occurs in every string. */
  lemma EmptyIncluded(hay: string)
    ensures Includes(hay, "")
  {
    assert hay[..0] == "";
  }

  // ---------------------------------------------------------------------
  // String.prototype.trim
  // ---------------------------------------------------------------------

  /** ECMAScript WhiteSpace and LineTerminator code points. */
  predicate IsJsSpace(c: char)
  {
    var v := c as int;
    v == 0x09 || v == 0x0A || v == 0x0B || v == 0x0C || v == 0x0D || v == 0x20 || v == 0xA0 ||
    v == 0x1680 || (0x2000 <= v <= 0x200A) || v == 0x2028 || v == 0x2029 || v == 0x202F ||
    v == 0x205F || v == 0x3000 || v == 0xFEFF
  }

  /** Number of white-space code points at the start of s. */
  function LeadingSpaces(s: string): (n: nat)
    ensures n <= |s|
    ensures forall k :: 0 <= k < n ==> IsJsSpace(s[k])
    ensures n < |s| ==> !IsJsSpace(s[n])
  {
    if s != [] && IsJsSpace(s[0]) then 1 + LeadingSpaces(s[1..]) else 0
  }

  /** Number of white-space code points at the end of s. */
  function TrailingSpaces(s: string): (n: nat)
    ensures n <= |s|
    ensures forall k :: |s| - n <= k < |s| ==> IsJsSpace(s[k])
    ensures n < |s| ==> !IsJsSpace(s[|s| - 1 - n])
  {
    if s != [] && IsJsSpace(s[|s| - 1]) then 1 + TrailingSpaces(s[..|s| - 1]) else 0
  }

  /** `s.trim()`: s without its leading and trailing white space. */
  function Trim(s: string): (r: string)
    ensures |r| <= |s|
    ensures r != [] ==> !IsJsSpace(r[0]) && !IsJsSpace(r[|r| - 1])
  {
    var t := s[LeadingSpaces(s)..];
    t[..|t| - TrailingSpaces(t)]
  }

  predicate AllSpace(s: string)
  {
    forall k :: 0 <= k < |s| ==> IsJsSpace(s[k])
  }

  /**
   * trim() cuts off exactly the leading and trailing white space: the result
   * is the slice s[i..j], everything outside it is white space, and the
   * slice neither starts nor ends with white space.
   */
  lemma TrimSpec(s: string)
    ensures var i := LeadingSpaces(s); var j := i + |Trim(s)|;
      j <= |s| && Trim(s) == s[i..j] &&
      (forall k :: 0 <= k < i ==> IsJsSpace(s[k])) &&
      (forall k :: j <= k < |s| ==> IsJsSpace(s[k]))
    ensures Trim(s) != [] ==> !IsJsSpace(Trim(s)[0]) && !IsJsSpace(Trim(s)[|Trim(s)| - 1])
    ensures Trim(s) == [] <==> AllSpace(s)
  {
    var i := LeadingSpaces(s);
    var t := s[i..];
    var n := TrailingSpaces(t);
    assert Trim(s) == s[i..i + |t| - n];
    forall k | i + |t| - n <= k < |s| ensures IsJsSpace(s[k]) {
      assert s[k] == t[k - i];
    }
  }

  /** Trimming twice is trimming once. */
  lemma TrimIdempotent(s: string)
    ensures Trim(Trim(s)) == Trim(s)
  {
    var r := Trim(s);
    TrimSpec(s);
    if r != [] {
      assert LeadingSpaces(r) == 0;
      assert r[0..] == r;
      assert TrailingSpaces(r) == 0;
      assert r[..|r|] == r;
    } else {
      assert Trim(r) == [];
    }
  }
}
