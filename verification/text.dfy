/**
  The string operations of the dependency pass: literal search (`re.search`
  with a pattern free of metacharacters), `split(':')[0]` and
  `replace('{', '')`.
 */
module Text {

  /** `sub` occurs in `s` starting at index `i`. */
  predicate OccursAt(s: string, sub: string, i: nat)
  {
    i + |sub| <= |s| && s[i..i + |sub|] == sub
  }

  /** `sub` occurs somewhere in `s`. */
  predicate Contains(s: string, sub: string)
  {
    exists i: nat | i <= |s| :: OccursAt(s, sub, i)
  }

  /** A string placed between two others is contained in the result. */
  lemma ContainsInfix(a: string, sub: string, b: string)
    ensures Contains(a + sub + b, sub)
  {
    var s := a + sub + b;
    assert s[|a|..|a| + |sub|] == sub;
    assert OccursAt(s, sub, |a|);
  }

  /** The characters with a special meaning in a Python regular expression. */
  const RegexMeta: string := ".^$*+?{}[]\\|()"

  /** A pattern without metacharacters matches exactly its own occurrences. */
  predicate Literal(pattern: string)
  {
    forall i | 0 <= i < |pattern| :: pattern[i] !in RegexMeta
  }

  lemma LiteralWithColon(name: string)
    requires Literal(name)
    ensures Literal(name + ":")
  {
    var p := name + ":";
    forall i | 0 <= i < |p|
      ensures p[i] !in RegexMeta
    {
      if i < |name| {
        assert p[i] == name[i];
      }
    }
  }

  /** `re.search(pattern, s)` is truthy, for a literal pattern. */
  predicate Search(pattern: string, s: string)
    requires Literal(pattern)
  {
    Contains(s, pattern)
  }

  /** `s.split(':')[0]`: the part of `s` before its first colon, or all of `s`. */
  function BeforeColon(s: string): (r: string)
    ensures r <= s
    ensures ':' !in r
    ensures |r| < |s| ==> s[|r|] == ':'
  {
    if s == [] then []
    else if s[0] == ':' then []
    else [s[0]] + BeforeColon(s[1..])
  }

  /** `s.replace(c, '')`: `s` with every occurrence of `c` deleted, the other
      characters kept in order. */
  function DeleteChar(s: string, c: char): (r: string)
    ensures forall x :: x in r ==> x in s && x != c
    ensures c !in s ==> r == s
  {
    if s == [] then []
    else
      assert s == [s[0]] + s[1..];
      (if s[0] == c then [] else [s[0]]) + DeleteChar(s[1..], c)
  }

  /** `replace` keeps the count of every other character and shortens the
      string by the number of occurrences of `c`. */
  lemma {:induction false} DeleteCharCounts(s: string, c: char)
    ensures forall d :: d != c ==> multiset(DeleteChar(s, c))[d] == multiset(s)[d]
    ensures |DeleteChar(s, c)| == |s| - multiset(s)[c]
  {
    if s != [] {
      DeleteCharCounts(s[1..], c);
      assert s == [s[0]] + s[1..];
    }
  }

  /** Deleting a character distributes over concatenation: the characters
      that stay keep their order. */
  lemma {:induction false} DeleteCharAppend(a: string, b: string, c: char)
    ensures DeleteChar(a + b, c) == DeleteChar(a, c) + DeleteChar(b, c)
  {
    if a == [] {
      assert a + b == b;
    } else {
      assert (a + b)[0] == a[0];
      assert (a + b)[1..] == a[1..] + b;
      DeleteCharAppend(a[1..], b, c);
    }
  }

  /** The template named by a trigger expression such as `{Tpl:key.last()}>0`:
      the text before the first colon with every `{` deleted. */
  function DependentTemplate(expression: string): (r: string)
    ensures ':' !in r && '{' !in r
  {
    var before := BeforeColon(expression);
    DeleteChar(before, '{')
  }

  /** For an expression `a:b` whose first colon ends `a`, the dependent
      template is `a` without its braces. */
  lemma {:induction false} BeforeFirstColon(a: string, b: string)
    requires ':' !in a
    ensures BeforeColon(a + ":" + b) == a
  {
    if a != [] {
      assert (a + ":" + b)[1..] == a[1..] + ":" + b;
      BeforeFirstColon(a[1..], b);
    } else {
      assert (a + ":" + b)[0] == ':';
    }
  }

  lemma DependentTemplateOf(a: string, b: string)
    requires ':' !in a
    ensures DependentTemplate(a + ":" + b) == DeleteChar(a, '{')
  {
    BeforeFirstColon(a, b);
  }
}
