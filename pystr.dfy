/** The Python `str` operations the garage core relies on (`strip`, `find`,
    `replace`, slicing, `upper`, `lower`, `capitalize`), modelled on
    `seq<char>` with ASCII case mapping. Each function keeps only cheap facts
    in its contract; what it means is stated by the lemma after it. */
module PyStr {

  /** The characters `str.isspace` accepts below U+0100. */
  predicate IsSpace(c: char)
  {
    c == ' ' || c == '\t' || c == '\n' || c == '\r' || c == '\U{000B}' || c == '\U{000C}'
    || ('\U{001C}' <= c <= '\U{001F}') || c == '\U{0085}' || c == '\U{00A0}'
  }

  /** Index of the first non-space character, or |s| when there is none. */
  function StripStart(s: string): (i: nat)
    ensures i <= |s|
  {
    if s == [] || !IsSpace(s[0]) then 0 else 1 + StripStart(s[1..])
  }

  lemma {:induction false} StripStartSpec(s: string)
    ensures forall k :: 0 <= k < StripStart(s) ==> IsSpace(s[k])
    ensures StripStart(s) < |s| ==> !IsSpace(s[StripStart(s)])
  {
    if s != [] && IsSpace(s[0]) {
      StripStartSpec(s[1..]);
    }
  }

  /** One past the index of the last non-space character, or 0 when there is none. */
  function StripEnd(s: string): (j: nat)
    ensures j <= |s|
  {
    if s == [] || !IsSpace(s[|s| - 1]) then |s| else StripEnd(s[..|s| - 1])
  }

  lemma {:induction false} StripEndSpec(s: string)
    ensures forall k :: StripEnd(s) <= k < |s| ==> IsSpace(s[k])
    ensures 0 < StripEnd(s) ==> !IsSpace(s[StripEnd(s) - 1])
  {
    if s != [] && IsSpace(s[|s| - 1]) {
      StripEndSpec(s[..|s| - 1]);
    }
  }

  /** `s.strip()`: the text with leading and trailing whitespace removed. */
  function Strip(s: string): (r: string)
    ensures |r| <= |s|
  {
    var i, j := StripStart(s), StripEnd(s);
    if i < j then s[i..j] else []
  }

  /** The stripped text is a piece of `s` that neither starts nor ends with
      whitespace, and only whitespace lies outside it. */
  lemma StripSpec(s: string)
    ensures Strip(s) == [] || (!IsSpace(Strip(s)[0]) && !IsSpace(Strip(s)[|Strip(s)| - 1]))
    ensures StripStart(s) + |Strip(s)| <= |s|
    ensures Strip(s) == s[StripStart(s)..StripStart(s) + |Strip(s)|]
    ensures forall k :: 0 <= k < StripStart(s) ==> IsSpace(s[k])
    ensures forall k :: StripStart(s) + |Strip(s)| <= k < |s| ==> IsSpace(s[k])
  {
    StripStartSpec(s);
    StripEndSpec(s);
    var i, j := StripStart(s), StripEnd(s);
    if i < |s| {
      assert j > i;
      assert Strip(s) == s[i..j];
    } else {
      assert Strip(s) == [];
    }
  }

  /** A text that neither starts nor ends with whitespace is its own strip. */
  lemma StripUnchanged(t: string)
    requires t == [] || (!IsSpace(t[0]) && !IsSpace(t[|t| - 1]))
    ensures Strip(t) == t
  {
    if t != [] {
      assert StripStart(t) == 0;
      assert StripEnd(t) == |t|;
    }
  }

  /** Stripping twice strips nothing more. */
  lemma StripIdempotent(s: string)
    ensures Strip(Strip(s)) == Strip(s)
  {
    StripSpec(s);
    StripUnchanged(Strip(s));
  }

  /** `sub` occurs in `s` starting at index `i`. */
  predicate OccursAt(s: string, sub: string, i: nat)
  {
    i + |sub| <= |s| && s[i..i + |sub|] == sub
  }

  /** `w in s` on strings: `w` occurs somewhere in `s`. */
  predicate Contains(s: string, w: string)
  {
    exists k: nat :: k <= |s| && OccursAt(s, w, k)
  }

  /** A text occurs in itself at 0. */
  lemma OccursWhole(w: string)
    ensures OccursAt(w, w, 0)
  {
    assert w[0..|w|] == w;
  }

  /** An occurrence stays where it is when text is appended. */
  lemma OccursAppend(s: string, w: string, k: nat, x: string)
    requires OccursAt(s, w, k)
    ensures OccursAt(s + x, w, k)
  {
    assert (s + x)[k..k + |w|] == s[k..k + |w|];
  }

  /** An occurrence moves right by the length of text put in front. */
  lemma OccursPrepend(p: string, s: string, w: string, k: nat)
    requires OccursAt(s, w, k)
    ensures OccursAt(p + s, w, |p| + k)
  {
    assert (p + s)[|p| + k..|p| + k + |w|] == s[k..k + |w|];
  }

  /** A text occurs at the start of anything it begins. */
  lemma OccursPrefix(p: string, x: string)
    ensures OccursAt(p + x, p, 0)
  {
    OccursWhole(p);
    OccursAppend(p, p, 0, x);
  }

  /** `s.find(sub, i)` for 0 <= i <= |s|: the first occurrence at or after `i`, or -1. */
  function FindFrom(s: string, sub: string, i: nat): (r: int)
    requires i <= |s|
    ensures -1 <= r
    decreases |s| - i
  {
    if i + |sub| > |s| then -1
    else if s[i..i + |sub|] == sub then i
    else if i == |s| then -1
    else FindFrom(s, sub, i + 1)
  }

  lemma {:induction false} FindFromSpec(s: string, sub: string, i: nat)
    requires i <= |s|
    ensures FindFrom(s, sub, i) == -1 || (i <= FindFrom(s, sub, i) && OccursAt(s, sub, FindFrom(s, sub, i)))
    ensures forall k :: i <= k && (FindFrom(s, sub, i) == -1 || k < FindFrom(s, sub, i)) ==> !OccursAt(s, sub, k)
    decreases |s| - i
  {
    if i + |sub| <= |s| && s[i..i + |sub|] != sub && i < |s| {
      FindFromSpec(s, sub, i + 1);
    }
  }

  /** `s.find(sub)`: the index of the first occurrence of `sub`, or -1. */
  function Find(s: string, sub: string): (r: int)
    ensures -1 <= r
  {
    FindFrom(s, sub, 0)
  }

  /** Find gives -1 exactly when `sub` occurs nowhere, and otherwise the first
      place it occurs. */
  lemma FindSpec(s: string, sub: string)
    ensures Find(s, sub) == -1 || OccursAt(s, sub, Find(s, sub))
    ensures forall k: nat :: (Find(s, sub) == -1 || k < Find(s, sub)) ==> !OccursAt(s, sub, k)
  {
    FindFromSpec(s, sub, 0);
  }

  /** A one-character pattern occurs exactly where that character stands. */
  lemma OccursAtChar(s: string, c: char, k: nat)
    ensures OccursAt(s, [c], k) <==> k < |s| && s[k] == c
  {
    if k < |s| {
      assert s[k..k + 1] == [s[k]];
    }
  }

  /** `s.find(c)` for one character: -1 exactly when `c` does not occur,
      otherwise the index of its first occurrence. */
  lemma FindChar(s: string, c: char)
    ensures Find(s, [c]) == -1 <==> c !in s
    ensures Find(s, [c]) >= 0 ==> Find(s, [c]) < |s| && s[Find(s, [c])] == c && c !in s[..Find(s, [c])]
  {
    FindSpec(s, [c]);
    var r := Find(s, [c]);
    forall k: nat ensures OccursAt(s, [c], k) <==> k < |s| && s[k] == c {
      OccursAtChar(s, c, k);
    }
    if r >= 0 {
      assert forall k :: 0 <= k < r ==> s[..r][k] == s[k];
    }
  }

  /** The Python slice `s[a:]` for a non-negative start. */
  function SliceFrom(s: string, a: nat): (r: string)
    ensures a <= |s| ==> r == s[a..]
    ensures a >= |s| ==> r == []
  {
    if a <= |s| then s[a..] else []
  }

  /** The Python slice `s[a:b]` for non-negative bounds: both are clamped to |s|. */
  function Slice(s: string, a: nat, b: nat): (r: string)
    ensures a < b <= |s| ==> r == s[a..b]
    ensures b <= a ==> r == []
  {
    var hi := if b <= |s| then b else |s|;
    if a < hi then s[a..hi] else []
  }

  /** `s.replace(pat, rep)` for a non-empty `pat`: a left-to-right scan replacing
      non-overlapping occurrences. */
  function Replace(s: string, pat: string, rep: string): (r: string)
    requires |pat| > 0
    decreases |s|
  {
    if |s| < |pat| then s
    else if s[..|pat|] == pat then rep + Replace(s[|pat|..], pat, rep)
    else [s[0]] + Replace(s[1..], pat, rep)
  }

  /** Text in which the pattern never occurs comes back unchanged. */
  lemma {:induction false} ReplaceAbsent(s: string, pat: string, rep: string)
    requires |pat| > 0
    requires forall k: nat :: !OccursAt(s, pat, k)
    ensures Replace(s, pat, rep) == s
    decreases |s|
  {
    if |s| >= |pat| {
      assert !OccursAt(s, pat, 0);
      forall k: nat ensures !OccursAt(s[1..], pat, k) {
        assert !OccursAt(s, pat, k + 1);
        if k + |pat| <= |s| - 1 {
          assert s[1..][k..k + |pat|] == s[k + 1..k + 1 + |pat|];
        }
      }
      ReplaceAbsent(s[1..], pat, rep);
    }
  }

  /** A text that starts with the pattern loses that occurrence first. */
  lemma ReplacePrefix(pat: string, rep: string, s: string)
    requires |pat| > 0
    ensures Replace(pat + s, pat, rep) == rep + Replace(s, pat, rep)
  {
    assert (pat + s)[..|pat|] == pat;
    assert (pat + s)[|pat|..] == s;
  }

  /** `s` with every `c` deleted. */
  function Remove(s: string, c: char): (r: string)
  {
    if s == [] then []
    else if s[0] == c then Remove(s[1..], c)
    else [s[0]] + Remove(s[1..], c)
  }

  /** Deletion leaves no `c`, keeps everything else, and keeps a text without `c`. */
  lemma {:induction false} RemoveSpec(s: string, c: char)
    ensures c !in Remove(s, c)
    ensures forall x :: x in s && x != c ==> x in Remove(s, c)
    ensures c !in s ==> Remove(s, c) == s
  {
    if s != [] {
      RemoveSpec(s[1..], c);
      assert forall x :: x in s ==> x == s[0] || x in s[1..];
    }
  }

  lemma {:induction false} RemoveAppend(a: string, b: string, c: char)
    ensures Remove(a + b, c) == Remove(a, c) + Remove(b, c)
  {
    if a != [] {
      assert (a + b)[0] == a[0] && (a + b)[1..] == a[1..] + b;
      RemoveAppend(a[1..], b, c);
      if a[0] != c {
        assert [a[0]] + Remove(a[1..], c) + Remove(b, c) == [a[0]] + (Remove(a[1..], c) + Remove(b, c));
      }
    } else {
      assert a + b == b;
    }
  }

  /** Replacing a one-character pattern by the empty string deletes that character. */
  lemma {:induction false} ReplaceCharIsRemove(s: string, c: char)
    ensures Replace(s, [c], "") == Remove(s, c)
  {
    if s != [] {
      ReplaceCharIsRemove(s[1..], c);
    }
  }

  function UpperChar(c: char): char
  {
    if 'a' <= c <= 'z' then (c as int - 32) as char else c
  }

  function LowerChar(c: char): char
  {
    if 'A' <= c <= 'Z' then (c as int + 32) as char else c
  }

  /** `s.upper()` with ASCII case mapping. */
  function Upper(s: string): (r: string)
    ensures |r| == |s|
  {
    if s == [] then [] else [UpperChar(s[0])] + Upper(s[1..])
  }

  /** `s.lower()` with ASCII case mapping. */
  function Lower(s: string): (r: string)
    ensures |r| == |s|
  {
    if s == [] then [] else [LowerChar(s[0])] + Lower(s[1..])
  }

  /** Upper-casing maps each character on its own and leaves no ASCII
      lower-case letter. */
  lemma {:induction false} UpperSpec(s: string)
    ensures forall k :: 0 <= k < |s| ==> Upper(s)[k] == UpperChar(s[k])
    ensures forall k :: 0 <= k < |s| ==> !('a' <= Upper(s)[k] <= 'z')
  {
    if s != [] {
      UpperSpec(s[1..]);
      assert forall k :: 1 <= k < |s| ==> Upper(s)[k] == Upper(s[1..])[k - 1];
    }
  }

  /** `s.capitalize()`: the first character upper-cased, the rest lower-cased. */
  function Capitalize(s: string): (r: string)
    ensures |r| == |s|
  {
    if s == [] then [] else [UpperChar(s[0])] + Lower(s[1..])
  }

  /** Deleting a character that is not a letter commutes with lower-casing. */
  lemma {:induction false} RemoveLower(s: string, c: char)
    requires !('A' <= c <= 'Z') && !('a' <= c <= 'z')
    ensures Remove(Lower(s), c) == Lower(Remove(s, c))
  {
    if s != [] {
      var l := Lower(s);
      assert l[0] == LowerChar(s[0]) && l[1..] == Lower(s[1..]);
      assert (l[0] == c) == (s[0] == c);
      RemoveLower(s[1..], c);
      if s[0] != c {
        assert Lower([s[0]] + Remove(s[1..], c)) == [LowerChar(s[0])] + Lower(Remove(s[1..], c));
      }
    }
  }

  /** Upper-casing forgets an earlier lower-casing. */
  lemma {:induction false} UpperLower(s: string)
    ensures Upper(Lower(s)) == Upper(s)
  {
    if s != [] {
      UpperLower(s[1..]);
      assert Lower(s)[1..] == Lower(s[1..]);
    }
  }

  /** Deleting a non-letter that is not the first character commutes with
      capitalising. */
  lemma RemoveCapitalize(s: string, c: char)
    requires !('A' <= c <= 'Z') && !('a' <= c <= 'z')
    requires s == [] || s[0] != c
    ensures Remove(Capitalize(s), c) == Capitalize(Remove(s, c))
  {
    if s != [] {
      var cap := Capitalize(s);
      assert cap[0] == UpperChar(s[0]) && cap[1..] == Lower(s[1..]);
      RemoveLower(s[1..], c);
      var rest := Remove(s[1..], c);
      assert Remove(s, c) == [s[0]] + rest;
      assert Capitalize([s[0]] + rest) == [UpperChar(s[0])] + Lower(rest) by {
        assert ([s[0]] + rest)[1..] == rest;
      }
    }
  }

  /** Deleting a character that is not a letter commutes with upper-casing. */
  lemma {:induction false} RemoveUpper(s: string, c: char)
    requires !('A' <= c <= 'Z') && !('a' <= c <= 'z')
    ensures Remove(Upper(s), c) == Upper(Remove(s, c))
  {
    if s != [] {
      var u := Upper(s);
      assert u[0] == UpperChar(s[0]) && u[1..] == Upper(s[1..]);
      assert (u[0] == c) == (s[0] == c);
      RemoveUpper(s[1..], c);
      if s[0] != c {
        assert Upper([s[0]] + Remove(s[1..], c)) == [UpperChar(s[0])] + Upper(Remove(s[1..], c));
      }
    }
  }

  /** Upper-casing twice is upper-casing once. */
  lemma {:induction false} UpperUpper(s: string)
    ensures Upper(Upper(s)) == Upper(s)
  {
    if s != [] {
      UpperUpper(s[1..]);
      assert Upper(s)[1..] == Upper(s[1..]);
    }
  }
}
