/**
 * Lower-casing of e-mail addresses, as Python's `str.lower()` does it
 * for the ASCII letters. Both booking endpoints normalise the client's
 * e-mail with it before storing or looking it up.
 */
module Text {

  predicate IsUpper(c: char) {
    'A' <= c <= 'Z'
  }

  /** The lower-case form of one character. */
  function Lower(c: char): (d: char)
    ensures !IsUpper(d)
  {
    if IsUpper(c) then (c as int + 32) as char else c
  }

  /** No upper-case letter anywhere in `s`. */
  predicate IsLowerCase(s: string) {
    forall i :: 0 <= i < |s| ==> !IsUpper(s[i])
  }

  /** `s.lower()`: same length, and no upper-case letter is left. */
  function ToLower(s: string): (r: string)
    ensures |r| == |s|
    ensures IsLowerCase(r)
  {
    if |s| == 0 then "" else [Lower(s[0])] + ToLower(s[1..])
  }

  /** Each character of the result is the lower-case form of the character at the same place. */
  lemma {:induction false} ToLowerAt(s: string, i: nat)
    requires i < |s|
    ensures ToLower(s)[i] == Lower(s[i])
  {
    if i > 0 {
      ToLowerAt(s[1..], i - 1);
    }
  }

  /** A string that is already lower case is left as it is. */
  lemma {:induction false} LowerCaseUnchanged(s: string)
    requires IsLowerCase(s)
    ensures ToLower(s) == s
  {
    if |s| > 0 {
      assert !IsUpper(s[0]);
      LowerCaseUnchanged(s[1..]);
    }
  }

  /** Lower-casing twice is lower-casing once. */
  lemma ToLowerIdempotent(s: string)
    ensures ToLower(ToLower(s)) == ToLower(s)
  {
    LowerCaseUnchanged(ToLower(s));
  }

  /**
   * Two strings lower to the same text exactly when they have the same
   * length and agree letter by letter once case is ignored: e-mails that
   * differ only in letter case are the same e-mail to the store.
   */
  lemma SameLowerIffCaseVariants(a: string, b: string)
    ensures ToLower(a) == ToLower(b) <==>
            |a| == |b| && forall i :: 0 <= i < |a| ==> Lower(a[i]) == Lower(b[i])
  {
    if ToLower(a) == ToLower(b) {
      forall i | 0 <= i < |a|
        ensures Lower(a[i]) == Lower(b[i])
      {
        ToLowerAt(a, i);
        ToLowerAt(b, i);
      }
    }
    if |a| == |b| && forall i :: 0 <= i < |a| ==> Lower(a[i]) == Lower(b[i]) {
      forall i | 0 <= i < |a|
        ensures ToLower(a)[i] == ToLower(b)[i]
      {
        ToLowerAt(a, i);
        ToLowerAt(b, i);
      }
    }
  }
}
