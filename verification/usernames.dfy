/** The username check of `handle_usernames` (main.py:151-155). Python's `lower`
    and `isalnum` accept all of Unicode; here both are restricted to ASCII. */
module Usernames {
  import opened Text

  /** `c.isalnum()` on ASCII: a letter or a digit. */
  predicate IsAlnum(c: char)
  {
    'a' <= c <= 'z' || 'A' <= c <= 'Z' || '0' <= c <= '9'
  }

  /** `s.replace(c, '')`. */
  function RemoveChar(s: string, c: char): (r: string)
    ensures forall x :: x in r <==> x in s && x != c
    ensures |r| <= |s|
  {
    if |s| == 0 then ""
    else
      var rest := RemoveChar(s[1..], c);
      assert forall x :: x in s <==> x == s[0] || x in s[1..];
      if s[0] == c then rest else [s[0]] + rest
  }

  /** Deleting a character distributes over concatenation, so `RemoveChar` keeps the other
      characters in order, each as often as it occurs. */
  lemma {:induction false} RemoveCharAppend(a: string, b: string, c: char)
    ensures RemoveChar(a + b, c) == RemoveChar(a, c) + RemoveChar(b, c)
    decreases |a|
  {
    if |a| > 0 {
      assert (a + b)[1..] == a[1..] + b;
      RemoveCharAppend(a[1..], b, c);
    } else {
      assert a + b == b;
    }
  }

  /** `token.lower().strip()`. */
  function Normalize(token: string): (u: string)
    ensures forall i :: 0 <= i < |u| ==> !('A' <= u[i] <= 'Z')
  {
    var lowered := Lower(token);
    LowerIdempotent(token);
    Strip(lowered)
  }

  /** The accept test: with every `.` and `_` deleted, a non-empty string of letters and digits
      (Python's `isalnum` is false on the empty string). */
  predicate IsValid(u: string)
  {
    var t := RemoveChar(RemoveChar(u, '.'), '_');
    |t| > 0 && forall i :: 0 <= i < |t| ==> IsAlnum(t[i])
  }

  /** A name is accepted exactly when it holds a letter or digit and nothing but letters,
      digits, dots and underscores. */
  lemma ValidIff(u: string)
    ensures IsValid(u) <==>
      && (exists i :: 0 <= i < |u| && IsAlnum(u[i]))
      && (forall i :: 0 <= i < |u| ==> IsAlnum(u[i]) || u[i] == '.' || u[i] == '_')
  {
    var t := RemoveChar(RemoveChar(u, '.'), '_');
    assert forall x :: x in t <==> x in u && x != '.' && x != '_';
    if IsValid(u) {
      var x := t[0];
      assert x in t && x in u;
      var i :| 0 <= i < |u| && u[i] == x;
      assert IsAlnum(u[i]);
      forall i | 0 <= i < |u| ensures IsAlnum(u[i]) || u[i] == '.' || u[i] == '_' {
        if u[i] != '.' && u[i] != '_' {
          assert u[i] in t;
          var j :| 0 <= j < |t| && t[j] == u[i];
        }
      }
    }
    if (exists i :: 0 <= i < |u| && IsAlnum(u[i])) && (forall i :: 0 <= i < |u| ==> IsAlnum(u[i]) || u[i] == '.' || u[i] == '_') {
      var i :| 0 <= i < |u| && IsAlnum(u[i]);
      assert u[i] in t;
      forall j | 0 <= j < |t| ensures IsAlnum(t[j]) {
        assert t[j] in u;
        var k :| 0 <= k < |u| && u[k] == t[j];
      }
    }
  }

  /** A token cut out by `split()` has no whitespace, so `strip` leaves it alone. */
  lemma NormalizeToken(token: string)
    requires NoSpace(token)
    ensures Normalize(token) == Lower(token)
  {
    LowerKeepsSpaces(token);
  }

  /** A normalised name is already lower case, so `/remove` finds it under the same key. */
  lemma NormalizedIsLower(token: string)
    ensures Lower(Normalize(token)) == Normalize(token)
  {
    LowerOfLower(Normalize(token));
  }
}
