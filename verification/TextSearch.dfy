/** Free-text search: `includes` on lower-cased strings, and what it finds. */
module TextSearch {

  /** `toLowerCase` on the ASCII letters. */
  function Lower(s: string): string {
    if s == "" then "" else
      [if 'A' <= s[0] <= 'Z' then s[0] - 'A' + 'a' else s[0]] + Lower(s[1..])
  }

  /** `includes`. */
  predicate Contains(s: string, needle: string) {
    needle <= s || (s != "" && Contains(s[1..], needle))
  }

  ghost predicate StandsAt(s: string, needle: string, i: int) {
    0 <= i <= |s| - |needle| && s[i..i + |needle|] == needle
  }

  lemma StandsLater(s: string, needle: string, i: int)
    requires s != "" && i > 0
    ensures StandsAt(s, needle, i) <==> StandsAt(s[1..], needle, i - 1)
  {
    if i <= |s| - |needle| { assert s[1..][i - 1..i - 1 + |needle|] == s[i..i + |needle|]; }
  }

  /** A text contains the strings that stand in it at some index, and no others. */
  lemma {:induction false} ContainsAt(s: string, needle: string)
    ensures Contains(s, needle) <==> exists i :: StandsAt(s, needle, i)
  {
    if needle <= s {
      assert StandsAt(s, needle, 0);
    } else {
      assert !StandsAt(s, needle, 0);
      if s != "" {
        ContainsAt(s[1..], needle);
        if i :| StandsAt(s[1..], needle, i) { StandsLater(s, needle, i + 1); }
        if i :| StandsAt(s, needle, i) { StandsLater(s, needle, i); }
      }
    }
  }

  /** Lower-casing works letter by letter: `A` to `Z` move up by 32, every other character stays. */
  lemma {:induction false} LowerAt(s: string)
    ensures |Lower(s)| == |s|
    ensures forall i :: 0 <= i < |s| ==>
              Lower(s)[i] as int == if 65 <= s[i] as int <= 90 then s[i] as int + 32 else s[i] as int
  {
    if s != "" { LowerAt(s[1..]); }
  }

  /** Equal up to the case of an ASCII letter. */
  predicate SameLetter(a: char, b: char) {
    || a == b
    || (65 <= a as int <= 90 && b as int == a as int + 32)
    || (65 <= b as int <= 90 && a as int == b as int + 32)
  }

  ghost predicate HoldsAt(text: string, needle: string, i: int) {
    0 <= i <= |text| - |needle| && forall k :: 0 <= k < |needle| ==> SameLetter(text[i + k], needle[k])
  }

  /** The text holds the needle at some index, up to ASCII case. */
  ghost predicate Holds(text: string, needle: string) { exists i :: HoldsAt(text, needle, i) }

  lemma LowerLetters(a: string, b: string)
    requires |a| == |b|
    ensures Lower(a) == Lower(b) <==> forall k :: 0 <= k < |a| ==> SameLetter(a[k], b[k])
  {
    LowerAt(a);
    LowerAt(b);
    var x, y := Lower(a), Lower(b);
    if x == y {
      forall k | 0 <= k < |a| ensures SameLetter(a[k], b[k]) { assert x[k] == y[k]; }
    }
    if forall k :: 0 <= k < |a| ==> SameLetter(a[k], b[k]) {
      forall k | 0 <= k < |a| ensures x[k] == y[k] { assert SameLetter(a[k], b[k]); }
    }
  }

  lemma LowerPart(s: string, i: nat, n: nat)
    requires i + n <= |s|
    ensures |Lower(s)| == |s| && Lower(s)[i..i + n] == Lower(s[i..i + n])
  {
    LowerAt(s);
    LowerAt(s[i..i + n]);
  }

  lemma LowerStands(text: string, needle: string, i: int)
    ensures StandsAt(Lower(text), Lower(needle), i) <==> HoldsAt(text, needle, i)
  {
    LowerAt(text);
    LowerAt(needle);
    if 0 <= i <= |text| - |needle| {
      LowerPart(text, i, |needle|);
      LowerLetters(text[i..i + |needle|], needle);
    }
  }

  /** Searching the lower-cased text for the lower-cased needle finds exactly the texts that hold it in any case. */
  lemma SearchExact(text: string, needle: string)
    ensures Contains(Lower(text), Lower(needle)) <==> Holds(text, needle)
  {
    ContainsAt(Lower(text), Lower(needle));
    if i :| StandsAt(Lower(text), Lower(needle), i) { LowerStands(text, needle, i); }
    if i :| HoldsAt(text, needle, i) { LowerStands(text, needle, i); }
  }
}
