/** The few java.lang.String operations the servlet uses, on `seq<char>`. */
module Text {

  datatype Option<+T> = None | Some(value: T)

  /** `s.startsWith(t)` */
  predicate StartsWith(s: string, t: string) {
    |t| <= |s| && s[..|t|] == t
  }

  /** `s.endsWith(t)` */
  predicate EndsWith(s: string, t: string) {
    |t| <= |s| && s[|s| - |t|..] == t
  }

  /** `s` starts with `t` exactly when `t` fits and agrees with `s` at each
      of its positions. */
  lemma StartsWithPointwise(s: string, t: string)
    ensures StartsWith(s, t) <==> |t| <= |s| && forall i :: 0 <= i < |t| ==> s[i] == t[i]
  {
    if |t| <= |s| && forall i :: 0 <= i < |t| ==> s[i] == t[i] {
      assert s[..|t|] == t;
    }
  }

  /** `s` ends with `t` exactly when `t` fits and agrees with the last |t|
      positions of `s`. */
  lemma EndsWithPointwise(s: string, t: string)
    ensures EndsWith(s, t) <==> |t| <= |s| && forall i :: 0 <= i < |t| ==> s[|s| - |t| + i] == t[i]
  {
    if |t| <= |s| && forall i :: 0 <= i < |t| ==> s[|s| - |t| + i] == t[i] {
      assert s[|s| - |t|..] == t;
    }
  }

  /** Some occurrence of `t` sits inside `s`. */
  ghost predicate Contains(s: string, t: string) {
    exists i :: 0 <= i <= |s| && StartsWith(s[i..], t)
  }

  lemma ContainsMiddle(a: string, t: string, b: string)
    ensures Contains(a + t + b, t)
  {
    var s := a + t + b;
    assert s[|a|..][..|t|] == t;
  }

  /** A string assembled as `a + t + b + u + c` contains both `t` and `u`. */
  lemma ContainsBoth(a: string, t: string, b: string, u: string, c: string)
    ensures Contains(a + t + b + u + c, t) && Contains(a + t + b + u + c, u)
  {
    ContainsMiddle(a + t + b, u, c);
    ContainsMiddle(a, t, b + u + c);
    assert a + t + b + u + c == a + t + (b + u + c);
  }

  /** `s.replace(from, to)` for single characters: every `from` becomes `to`. */
  function ReplaceChar(s: string, from: char, to: char): (r: string)
    ensures |r| == |s|
    ensures forall i :: 0 <= i < |s| ==> r[i] == (if s[i] == from then to else s[i])
  {
    if s == [] then [] else [if s[0] == from then to else s[0]] + ReplaceChar(s[1..], from, to)
  }

  lemma ReplaceCharAppend(a: string, b: string, from: char, to: char)
    ensures ReplaceChar(a + b, from, to) == ReplaceChar(a, from, to) + ReplaceChar(b, from, to)
  {
  }

  /** Replacing a character that does not occur changes nothing. */
  lemma ReplaceAbsentChar(s: string, from: char, to: char)
    requires from !in s
    ensures ReplaceChar(s, from, to) == s
  {
  }

  /** The suffix of compiled class files. */
  const ClassSuffix := ".class"

  /** `s.replace(".class", "")`: Java scans left to right and drops every
      non-overlapping occurrence of the target. */
  function RemoveClassSuffixes(s: string): (r: string)
    ensures |r| <= |s|
  {
    if s == [] then []
    else if StartsWith(s, ClassSuffix) then
      RemoveClassSuffixes(s[|ClassSuffix|..])
    else
      [s[0]] + RemoveClassSuffixes(s[1..])
  }

  /** Removal at the first occurrence: when `".class"` starts at position
      `|a|` and at no earlier position, the removal keeps `a`, drops that
      occurrence and goes on with `c`. */
  lemma {:induction false} RemoveFirstClassSuffix(a: string, c: string)
    requires forall i :: 0 <= i < |a| ==> !StartsWith(a[i..] + ClassSuffix + c, ClassSuffix)
    ensures RemoveClassSuffixes(a + ClassSuffix + c) == a + RemoveClassSuffixes(c)
  {
    var s := ClassSuffix + c;
    assert a + ClassSuffix + c == a + s;
    assert forall i :: 0 <= i < |a| ==> a[i..] + ClassSuffix + c == a[i..] + s;
    KeepPrefixWithoutClassSuffix(a, s);
    assert s[..|ClassSuffix|] == ClassSuffix && s[|ClassSuffix|..] == c;
  }

  /** Whether ".class" starts inside `a` does not depend on what follows
      the ".class" put after it. */
  lemma NoClassSuffixWhateverFollows(a: string, c: string)
    requires forall i :: 0 <= i < |a| ==> !StartsWith(a[i..] + ClassSuffix, ClassSuffix)
    ensures forall i :: 0 <= i < |a| ==> !StartsWith(a[i..] + ClassSuffix + c, ClassSuffix)
  {
    forall i | 0 <= i < |a|
      ensures !StartsWith(a[i..] + ClassSuffix + c, ClassSuffix)
    {
      var x := a[i..] + ClassSuffix;
      assert (x + c)[..|ClassSuffix|] == x[..|ClassSuffix|];
    }
  }

  /** `b + ".class"`, with no ".class" starting inside `b`, loses its suffix. */
  lemma RemoveTrailingClassSuffix(b: string)
    requires forall i :: 0 <= i < |b| ==> !StartsWith(b[i..] + ClassSuffix, ClassSuffix)
    ensures RemoveClassSuffixes(b + ClassSuffix) == b
  {
    KeepPrefixWithoutClassSuffix(b, ClassSuffix);
    SuffixAloneVanishes();
    assert b + [] == b;
  }

  lemma SuffixAloneVanishes()
    ensures RemoveClassSuffixes(ClassSuffix) == []
  {
    assert StartsWith(ClassSuffix, ClassSuffix) && ClassSuffix[|ClassSuffix|..] == [];
  }

  /** A string in which no ".class" starts is left unchanged. */
  lemma UnchangedWithoutClassSuffix(s: string)
    requires forall i :: 0 <= i < |s| ==> !StartsWith(s[i..], ClassSuffix)
    ensures RemoveClassSuffixes(s) == s
  {
    assert forall i :: 0 <= i < |s| ==> s[i..] + [] == s[i..];
    KeepPrefixWithoutClassSuffix(s, []);
    assert s + [] == s;
  }

  /** An occurrence of ".class" is removed: the result is at least six
      characters shorter. */
  lemma {:induction false} RemovalShortens(s: string)
    requires Contains(s, ClassSuffix)
    ensures |RemoveClassSuffixes(s)| + |ClassSuffix| <= |s|
  {
    if !StartsWith(s, ClassSuffix) {
      var i :| 0 <= i <= |s| && StartsWith(s[i..], ClassSuffix);
      assert i != 0 by { assert s[0..] == s; }
      assert s[1..][i - 1..] == s[i..];
      RemovalShortens(s[1..]);
    }
  }

  /** The removal adds no character: one absent from the input is absent
      from the result. */
  lemma {:induction false} RemovalAddsNoChar(s: string, ch: char)
    requires ch !in s
    ensures ch !in RemoveClassSuffixes(s)
  {
    if s != [] {
      if StartsWith(s, ClassSuffix) {
        assert s[0..] == s;
        RemovalAddsNoChar(s[|ClassSuffix|..], ch);
      } else {
        RemovalAddsNoChar(s[1..], ch);
      }
    }
  }

  /** A prefix in which no occurrence of ".class" starts is kept as it is. */
  lemma {:induction false} KeepPrefixWithoutClassSuffix(a: string, t: string)
    requires forall i :: 0 <= i < |a| ==> !StartsWith(a[i..] + t, ClassSuffix)
    ensures RemoveClassSuffixes(a + t) == a + RemoveClassSuffixes(t)
    decreases a
  {
    if a == [] {
      assert a + t == t;
    } else {
      assert a[0..] == a;
      KeepFirstChar(a, t);
      NoClassSuffixInTail(a, t);
      KeepPrefixWithoutClassSuffix(a[1..], t);
      assert [a[0]] + a[1..] == a;
    }
  }

  lemma NoClassSuffixInTail(a: string, t: string)
    requires a != [] && forall i :: 0 <= i < |a| ==> !StartsWith(a[i..] + t, ClassSuffix)
    ensures forall i :: 0 <= i < |a[1..]| ==> !StartsWith(a[1..][i..] + t, ClassSuffix)
  {
    forall i | 0 <= i < |a[1..]|
      ensures !StartsWith(a[1..][i..] + t, ClassSuffix)
    {
      assert a[1..][i..] == a[i + 1..];
    }
  }

  lemma KeepFirstChar(a: string, t: string)
    requires a != [] && !StartsWith(a + t, ClassSuffix)
    ensures RemoveClassSuffixes(a + t) == [a[0]] + RemoveClassSuffixes(a[1..] + t)
  {
    assert (a + t)[1..] == a[1..] + t;
  }

  /** No occurrence of ".class" starts inside a name without any '.',
      whatever follows it. */
  lemma DotFreeHasNoClassSuffix(b: string, t: string)
    requires '.' !in b
    ensures forall i :: 0 <= i < |b| ==> !StartsWith(b[i..] + t, ClassSuffix)
  {
    forall i | 0 <= i < |b|
      ensures !StartsWith(b[i..] + t, ClassSuffix)
    {
      assert (b[i..] + t)[0] == b[i];
    }
  }

  /** `s.indexOf(c)`: the first position of `c`, or -1 when `c` does not occur. */
  function IndexOf(s: string, c: char): (r: int)
    ensures -1 <= r < |s|
    ensures r == -1 <==> c !in s
    ensures r >= 0 ==> s[r] == c && c !in s[..r]
  {
    if s == [] then -1
    else if s[0] == c then 0
    else
      var k := IndexOf(s[1..], c);
      assert s[1..][..if k < 0 then 0 else k] == s[1..if k < 0 then 1 else k + 1];
      if k < 0 then -1 else k + 1
  }
}
