/**
  Character and string helpers the author-name splitter relies on.

  Python applies these to Unicode text; this model restricts each of them
  to ASCII: `IsSpace` is `str.isspace`, `IsWordChar` is the regex class `\w`,
  `Lower` is `str.lower` and `Strip` is `str.strip()` with no argument.
 */
module Text {

  /** Whitespace as `str.isspace` sees it on ASCII: tab, line feed, vertical
      tab, form feed, carriage return, the separators 0x1C-0x1F, and space. */
  predicate IsSpace(c: char) {
    c == ' ' || (9 <= c as int <= 13) || (28 <= c as int <= 31)
  }

  /** A character of the regex class `\w`, on ASCII. */
  predicate IsWordChar(c: char) {
    ('a' <= c <= 'z') || ('A' <= c <= 'Z') || ('0' <= c <= '9') || c == '_'
  }

  predicate IsUpper(c: char) {
    'A' <= c <= 'Z'
  }

  function LowerChar(c: char): (r: char)
    ensures !IsUpper(r)
    ensures !IsUpper(c) ==> r == c
    ensures IsUpper(c) ==> 'a' <= r <= 'z' && r as int == c as int + 32
    ensures IsWordChar(r) == IsWordChar(c)
    ensures IsSpace(r) == IsSpace(c)
  {
    if IsUpper(c) then (c as int + 32) as char else c
  }

  /** `str.lower`: every upper-case letter becomes its lower-case partner,
      every other character is kept, and the length does not change. */
  function Lower(t: string): string {
    seq(|t|, k requires 0 <= k < |t| => LowerChar(t[k]))
  }

  lemma LowerSpec(t: string)
    ensures var r := Lower(t);
      && |r| == |t|
      && (forall k :: 0 <= k < |r| ==> !IsUpper(r[k]))
      && (forall k :: 0 <= k < |t| && !IsUpper(t[k]) ==> r[k] == t[k])
      && (forall k :: 0 <= k < |t| && IsUpper(t[k]) ==> r[k] as int == t[k] as int + 32)
  {
  }

  /** t[a..b] is what is left of t once all leading and all trailing
      whitespace is removed. */
  predicate StrippedAt(t: string, a: nat, b: nat) {
    && a <= b <= |t|
    && (forall k :: 0 <= k < a ==> IsSpace(t[k]))
    && (forall k :: b <= k < |t| ==> IsSpace(t[k]))
    && (a < b ==> !IsSpace(t[a]) && !IsSpace(t[b - 1]))
    && (a == b ==> forall k :: 0 <= k < |t| ==> IsSpace(t[k]))
  }

  /** Number of whitespace characters at the front of t. */
  function LeadingSpaces(t: string): (n: nat)
    ensures n <= |t|
    ensures forall k :: 0 <= k < n ==> IsSpace(t[k])
    ensures n == |t| || !IsSpace(t[n])
  {
    if |t| > 0 && IsSpace(t[0]) then 1 + LeadingSpaces(t[1..]) else 0
  }

  /** Number of whitespace characters at the end of t. */
  function TrailingSpaces(t: string): (n: nat)
    ensures n <= |t|
    ensures forall k :: |t| - n <= k < |t| ==> IsSpace(t[k])
    ensures n == |t| || !IsSpace(t[|t| - n - 1])
  {
    if |t| > 0 && IsSpace(t[|t| - 1]) then 1 + TrailingSpaces(t[..|t| - 1]) else 0
  }

  /** Where the stripped text ends inside t; it starts after the
      `LeadingSpaces(t)` leading whitespace characters. */
  function StripEnd(t: string): (b: nat)
    ensures LeadingSpaces(t) <= b <= |t|
  {
    |t| - TrailingSpaces(t[LeadingSpaces(t)..])
  }

  /** `str.strip()`: the longest middle part of t that neither starts nor
      ends with whitespace, obtained by removing whitespace only. */
  function Strip(t: string): string {
    t[LeadingSpaces(t)..StripEnd(t)]
  }

  lemma StripSpec(t: string)
    ensures StrippedAt(t, LeadingSpaces(t), StripEnd(t))
    ensures Strip(t) == [] || (!IsSpace(Strip(t)[0]) && !IsSpace(Strip(t)[|Strip(t)| - 1]))
  {
    var a := LeadingSpaces(t);
    var u := t[a..];
    var m := TrailingSpaces(u);
    var b := |t| - m;
    assert StripEnd(t) == b;
    forall k | b <= k < |t|
      ensures IsSpace(t[k])
    {
      assert t[k] == u[k - a];
    }
    if a < b {
      assert t[b - 1] == u[|u| - m - 1];
    }
    assert StrippedAt(t, a, b);
    var r := Strip(t);
    assert r == t[a..b];
  }

  /** Whatever way t is cut into whitespace, a non-space-bounded middle and
      whitespace, the middle is the same: `Strip` is determined by
      `StrippedAt` alone. */
  lemma StrippedAtUnique(t: string, a: nat, b: nat, c: nat, d: nat)
    requires StrippedAt(t, a, b) && StrippedAt(t, c, d)
    ensures t[a..b] == t[c..d]
  {
  }

  /** Stripping is settled by any cut of t that `StrippedAt` accepts. */
  lemma StripAt(t: string, a: nat, b: nat)
    requires StrippedAt(t, a, b)
    ensures Strip(t) == t[a..b]
  {
    StrippedAtUnique(t, a, b, LeadingSpaces(t), StripEnd(t));
  }

  /** Stripping twice is stripping once. */
  lemma StripIdempotent(t: string)
    ensures Strip(Strip(t)) == Strip(t)
  {
    var r := Strip(t);
    StripSpec(t);
    StripSpec(r);
    assert StrippedAt(r, 0, |r|);
    StrippedAtUnique(r, 0, |r|, LeadingSpaces(r), StripEnd(r));
  }
}
