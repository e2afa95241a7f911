/**
 The input sanitizer: keeps letters, digits and spaces, lower-cases what it
 kept, and strips newlines from both ends of the result.

 Character classes are modelled over ASCII: `IsAlnum` stands for the runtime's
 `isalnum` and `LowerChar` for its `lower`, restricted to the ASCII range.
 */
module Sanitize {

  /** ASCII letters and digits. */
  predicate IsAlnum(c: char) {
    ('a' <= c <= 'z') || ('A' <= c <= 'Z') || ('0' <= c <= '9')
  }

  predicate IsUpper(c: char) {
    'A' <= c <= 'Z'
  }

  /** The characters the filter loop keeps. */
  predicate Kept(c: char) {
    IsAlnum(c) || c == ' '
  }

  /** Lower-case mapping of one character. */
  function LowerChar(c: char): (d: char)
    ensures !IsUpper(d)
    ensures IsAlnum(d) <==> IsAlnum(c)
    ensures (d == ' ') <==> (c == ' ')
    ensures !IsUpper(c) ==> d == c
    ensures IsUpper(c) ==> 'a' <= d <= 'z' && d as int - c as int == 'a' as int - 'A' as int
  {
    if IsUpper(c) then (c as int - 'A' as int + 'a' as int) as char else c
  }

  /** Lower-cases every character of a string. */
  function Lower(s: string): (r: string)
    ensures |r| == |s|
    ensures forall i :: 0 <= i < |s| ==> !IsUpper(r[i]) && (Kept(r[i]) <==> Kept(s[i]))
  {
    seq(|s|, i requires 0 <= i < |s| => LowerChar(s[i]))
  }

  /** Drops every leading `c`. */
  function StripLeft(s: string, c: char): (r: string)
    ensures |r| <= |s| && r == s[|s| - |r|..]
    ensures r == [] || r[0] != c
    ensures forall i :: 0 <= i < |s| - |r| ==> s[i] == c
  {
    if s != [] && s[0] == c then StripLeft(s[1..], c) else s
  }

  /** Drops every trailing `c`. */
  function StripRight(s: string, c: char): (r: string)
    ensures |r| <= |s| && r == s[..|r|]
    ensures r == [] || r[|r| - 1] != c
    ensures forall i :: |r| <= i < |s| ==> s[i] == c
  {
    if s != [] && s[|s| - 1] == c then StripRight(s[..|s| - 1], c) else s
  }

  /** Removes `c` from both ends, as the runtime's `strip(c)` does. */
  function Strip(s: string, c: char): string {
    StripRight(StripLeft(s, c), c)
  }

  /** The characters the filter loop has kept from `s`, in order. */
  function Filter(s: string): string {
    if s == [] then []
    else Filter(s[..|s| - 1]) + (if Kept(s[|s| - 1]) then [s[|s| - 1]] else [])
  }

  /**
   Reference definition of a sanitized string, written front to back: every
   letter, digit or space of `s`, lower-cased, in its original order.
   */
  function Clean(s: string): string {
    if s == [] then []
    else (if Kept(s[0]) then [LowerChar(s[0])] else []) + Clean(s[1..])
  }

  /** The sanitizer: the filter loop, then lower-casing, then stripping newlines. */
  method Sanitize(s: string) returns (r: string)
    ensures r == Clean(s)
    ensures forall i :: 0 <= i < |r| ==> Kept(r[i]) && !IsUpper(r[i])
    ensures '\n' !in r
    ensures |r| <= |s|
  {
    var kept := "";
    for i := 0 to |s|
      invariant kept == Filter(s[..i])
    {
      assert s[..i + 1][..i] == s[..i];
      if IsAlnum(s[i]) || s[i] == ' ' {
        kept := kept + [s[i]];
      }
    }
    assert s[..|s|] == s;
    var lowered := Lower(kept);
    LowerFilterIsClean(s);
    CleanShape(s);
    StripAbsent(lowered, '\n');
    r := Strip(lowered, '\n');
  }

  /** Lower-casing what the loop kept is the reference definition. */
  lemma {:induction false} LowerFilterIsClean(s: string)
    ensures Lower(Filter(s)) == Clean(s)
  {
    if s != [] {
      var init, last := s[..|s| - 1], s[|s| - 1];
      LowerFilterIsClean(init);
      CleanAppend(init, [last]);
      assert s == init + [last];
      assert Clean([last]) == (if Kept(last) then [LowerChar(last)] else []) by {
        assert [last][1..] == [];
      }
      assert Lower(Filter(init) + (if Kept(last) then [last] else []))
          == Lower(Filter(init)) + (if Kept(last) then [LowerChar(last)] else []);
    }
  }

  /** `Clean` works piecewise over concatenation. */
  lemma {:induction false} CleanAppend(a: string, b: string)
    ensures Clean(a + b) == Clean(a) + Clean(b)
  {
    if a != [] {
      var head := if Kept(a[0]) then [LowerChar(a[0])] else [];
      assert (a + b)[0] == a[0];
      assert (a + b)[1..] == a[1..] + b;
      CleanAppend(a[1..], b);
      calc {
        Clean(a + b);
        head + Clean(a[1..] + b);
        head + (Clean(a[1..]) + Clean(b));
        (head + Clean(a[1..])) + Clean(b);
      }
    } else {
      assert a + b == b;
    }
  }

  /**
   A sanitized string holds only lower-case letters, digits and spaces, and is
   no longer than the input.
   */
  lemma {:induction false} CleanShape(s: string)
    ensures forall i :: 0 <= i < |Clean(s)| ==> Kept(Clean(s)[i]) && !IsUpper(Clean(s)[i])
    ensures |Clean(s)| <= |s|
  {
    if s != [] {
      CleanShape(s[1..]);
    }
  }

  /** Stripping a character that does not occur changes nothing. */
  lemma StripAbsent(s: string, c: char)
    requires c !in s
    ensures Strip(s, c) == s
  {
    var l := StripLeft(s, c);
    assert l == s;
  }

  /** Sanitizing yields the empty string exactly when nothing in the input is kept. */
  lemma {:induction false} CleanEmptyIff(s: string)
    ensures Clean(s) == [] <==> forall i :: 0 <= i < |s| ==> !Kept(s[i])
  {
    if s != [] {
      CleanEmptyIff(s[1..]);
      assert forall i :: 1 <= i < |s| ==> s[i] == s[1..][i - 1];
    }
  }

  /** Sanitizing a sanitized string changes nothing. */
  lemma {:induction false} CleanIdempotent(s: string)
    ensures Clean(Clean(s)) == Clean(s)
  {
    if s != [] {
      CleanIdempotent(s[1..]);
      var head := if Kept(s[0]) then [LowerChar(s[0])] else [];
      CleanAppend(head, Clean(s[1..]));
      if Kept(s[0]) {
        assert head[1..] == [];
        assert Clean(head) == head;
      }
    }
  }
}
