/** Character-sequence helpers shared by both entry points: finding a
    character, subsequences, and cutting a command line at its first pair of
    quote characters. For single quotes that cut is where a POSIX shell
    delimits a quoted word. For double quotes every POSIX shell agrees with
    the cut when the text between the quotes holds no `\`, `$` or backtick,
    the only characters besides `"` that are special inside double quotes;
    with one of them the shell may read on past the closing `"`. */
module Text {

  datatype Option<T> = None | Some(value: T)

  /** Position of the first `c` in `s`, if there is one. */
  function IndexOf(s: string, c: char): (r: Option<nat>)
    ensures r.None? <==> c !in s
    ensures r.Some? ==> r.value < |s| && s[r.value] == c && c !in s[..r.value]
  {
    if s == [] then None
    else if s[0] == c then Some(0)
    else
      match IndexOf(s[1..], c)
      case None => None
      case Some(i) =>
        assert s[..i + 1] == [s[0]] + s[1..][..i];
        Some(i + 1)
  }

  /** `a` can be obtained from `b` by deleting elements, keeping the order of the rest. */
  predicate IsSubsequence<T(==)>(a: seq<T>, b: seq<T>)
    decreases |b|
  {
    if a == [] then true
    else if b == [] then false
    else (a[0] == b[0] && IsSubsequence(a[1..], b[1..])) || IsSubsequence(a, b[1..])
  }

  lemma {:induction false} SubsequenceReflexive<T>(a: seq<T>)
    ensures IsSubsequence(a, a)
    decreases |a|
  {
    if a != [] {
      SubsequenceReflexive(a[1..]);
    }
  }

  lemma {:induction false} SubsequenceTransitive<T>(a: seq<T>, b: seq<T>, c: seq<T>)
    requires IsSubsequence(a, b) && IsSubsequence(b, c)
    ensures IsSubsequence(a, c)
    decreases |c|
  {
    if a != [] && c != [] {
      if b[0] == c[0] && IsSubsequence(b[1..], c[1..]) {
        if a[0] == b[0] && IsSubsequence(a[1..], b[1..]) {
          SubsequenceTransitive(a[1..], b[1..], c[1..]);
        } else {
          SubsequenceTransitive(a, b[1..], c[1..]);
        }
      } else {
        SubsequenceTransitive(a, b, c[1..]);
      }
    }
  }

  /** Deleting one element from the middle leaves a subsequence. */
  lemma {:induction false} SubsequenceDeleteOne<T>(a: seq<T>, x: T, b: seq<T>)
    ensures IsSubsequence(a + b, a + [x] + b)
    decreases |a|
  {
    if a == [] {
      SubsequenceReflexive(b);
      assert a + b == b;
      assert (a + [x] + b)[1..] == b;
    } else {
      SubsequenceDeleteOne(a[1..], x, b);
      assert (a + b)[1..] == a[1..] + b;
      assert (a + [x] + b)[1..] == a[1..] + [x] + b;
    }
  }

  /** Appending the same element to both sides, or to the longer one only, keeps a subsequence. */
  lemma {:induction false} SubsequenceAppend<T>(a: seq<T>, b: seq<T>, x: T)
    requires IsSubsequence(a, b)
    ensures IsSubsequence(a + [x], b + [x]) && IsSubsequence(a, b + [x])
    decreases |b|
  {
    if b == [] {
      assert a == [];
      assert [x][1..] == [];
    } else if a == [] {
      assert a + [x] == [x];
      assert (b + [x])[1..] == b[1..] + [x];
      SubsequenceAppend(a, b[1..], x);
    } else {
      assert (a + [x])[1..] == a[1..] + [x];
      assert (b + [x])[1..] == b[1..] + [x];
      if a[0] == b[0] && IsSubsequence(a[1..], b[1..]) {
        SubsequenceAppend(a[1..], b[1..], x);
      } else {
        SubsequenceAppend(a, b[1..], x);
      }
    }
  }

  /** A command line cut at its first two occurrences of a quote character. */
  datatype Segments = Segments(before: string, inside: string, after: string)

  /** Cuts `s` at its first two occurrences of `q`: what precedes the opening
      quote, what lies between the two quotes, and what follows the closing
      one. A shell reads `inside` as one literal word when `q` is `'`. */
  function QuotedSpan(s: string, q: char): (r: Option<Segments>)
    ensures r.Some? <==> multiset(s)[q] >= 2
    ensures r.Some? ==> s == r.value.before + [q] + r.value.inside + [q] + r.value.after
    ensures r.Some? ==> q !in r.value.before && q !in r.value.inside
  {
    var first := IndexOf(s, q);
    if first.None? then
      CountAbsent(s, q);
      None
    else
      var i := first.value;
      var t := s[i + 1..];
      var second := IndexOf(t, q);
      SplitAt(s, i);
      if second.None? then
        CountAbsent(s[..i], q);
        CountAbsent(t, q);
        None
      else
        Cut(s, i, second.value, q)
  }

  /** The three parts of `s` around the quote at `i` and the quote at `i + 1 + j`. */
  function Cut(s: string, i: nat, j: nat, q: char): (r: Option<Segments>)
    requires i + 1 + j < |s| && s[i] == q && s[i + 1 + j] == q
    requires q !in s[..i] && q !in s[i + 1..i + 1 + j]
    ensures r.Some? && multiset(s)[q] >= 2
    ensures s == r.value.before + [q] + r.value.inside + [q] + r.value.after
    ensures q !in r.value.before && q !in r.value.inside
  {
    var before, inside, after := s[..i], s[i + 1..i + 1 + j], s[i + 2 + j..];
    assert s == before + [q] + inside + [q] + after;
    assert multiset(s)[q] >= 2 by {
      assert multiset(s) == multiset(before) + multiset{q} + multiset(inside) + multiset{q} + multiset(after);
    }
    Some(Segments(before, inside, after))
  }

  /** Concatenation regroups freely. */
  lemma ConcatAssociative<T>(x: seq<T>, y: seq<T>, z: seq<T>)
    ensures x + (y + z) == (x + y) + z
  {
  }

  lemma CountAbsent(s: string, q: char)
    requires q !in s
    ensures multiset(s)[q] == 0
  {
  }

  lemma SplitAt(s: string, i: nat)
    requires i < |s|
    ensures s == s[..i] + [s[i]] + s[i + 1..]
    ensures multiset(s)[s[i]] == multiset(s[..i])[s[i]] + 1 + multiset(s[i + 1..])[s[i]]
  {
    assert s == s[..i] + [s[i]] + s[i + 1..];
    assert multiset(s) == multiset(s[..i]) + multiset{s[i]} + multiset(s[i + 1..]);
  }

  /** Two cuts of the same string at quote characters that are each the
      first two agree. */
  lemma CutUnique(b1: string, m1: string, a1: string, b2: string, m2: string, a2: string, q: char)
    requires q !in b1 && q !in m1 && q !in b2 && q !in m2
    requires b1 + [q] + m1 + [q] + a1 == b2 + [q] + m2 + [q] + a2
    ensures b1 == b2 && m1 == m2 && a1 == a2
  {
    var s := b1 + [q] + m1 + [q] + a1;
    var s2 := b2 + [q] + m2 + [q] + a2;
    assert s[|b1|] == q && s2[|b2|] == q;
    assert b1 == s[..|b1|] == s2[..|b2|] == b2;
    var k := |b1| + 1;
    assert s[k + |m1|] == q && s2[k + |m2|] == q;
    assert m1 == s[k..k + |m1|] == s2[k..k + |m2|] == m2;
    assert a1 == s[k + |m1| + 1..] == s2[k + |m2| + 1..] == a2;
  }

  /** The cut is unique: a string built as `before`, quote, `inside`, quote,
      `after`, with no quote in `before` or `inside`, is cut back into exactly
      those three parts. */
  lemma QuotedSpanOf(before: string, inside: string, after: string, q: char)
    requires q !in before && q !in inside
    ensures QuotedSpan(before + [q] + inside + [q] + after, q) == Some(Segments(before, inside, after))
  {
    var s := before + [q] + inside + [q] + after;
    assert multiset(s)[q] >= 2 by {
      assert multiset(s) == multiset(before) + multiset{q} + multiset(inside) + multiset{q} + multiset(after);
    }
    var r := QuotedSpan(s, q).value;
    CutUnique(before, inside, after, r.before, r.inside, r.after, q);
  }

  /** A quote character inside the would-be quoted part closes the span
      early: of `head`, a quote and `rest` placed between two quotes, the
      span holds only `head`, and `rest` follows the closing quote. */
  lemma QuotedSpanEndsEarly(s: string, before: string, head: string, rest: string, after: string, q: char)
    requires q !in before && q !in head
    requires s == before + [q] + (head + [q] + rest) + [q] + after
    ensures QuotedSpan(s, q) == Some(Segments(before, head, rest + [q] + after))
  {
    assert s == before + [q] + head + [q] + (rest + [q] + after);
    QuotedSpanOf(before, head, rest + [q] + after, q);
  }
}
