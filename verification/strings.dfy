/** Joining string segments with the newline separator the serialiser uses. */
module Strings {
  import opened Wrappers

  /** The separator `nl` of the serialiser. */
  const Nl: string := "\n"

  /** `Array.prototype.join`: the elements separated by `sep`, nothing for no elements. */
  function Join(xs: seq<string>, sep: string): string
    decreases |xs|
  {
    if |xs| == 0 then ""
    else if |xs| == 1 then xs[0]
    else xs[0] + sep + Join(xs[1..], sep)
  }

  /** Every element followed by a newline: the text of `xs` read as lines. */
  function Terminated(xs: seq<string>): string
    decreases |xs|
  {
    if |xs| == 0 then "" else xs[0] + Nl + Terminated(xs[1..])
  }

  /** A non-empty list joined with newlines, plus one final newline, is the list read as lines. */
  lemma {:induction false} JoinThenNewline(xs: seq<string>)
    requires |xs| > 0
    ensures Join(xs, Nl) + Nl == Terminated(xs)
    decreases |xs|
  {
    if |xs| > 1 {
      JoinThenNewline(xs[1..]);
      assert Terminated(xs) == xs[0] + Nl + Terminated(xs[1..]);
    } else {
      assert xs[1..] == [];
    }
  }

  /** Reading lines distributes over concatenation of the line lists. */
  lemma {:induction false} TerminatedAppend(xs: seq<string>, ys: seq<string>)
    ensures Terminated(xs + ys) == Terminated(xs) + Terminated(ys)
    decreases |xs|
  {
    if |xs| == 0 {
      assert xs + ys == ys;
    } else {
      TerminatedAppend(xs[1..], ys);
      assert (xs + ys)[1..] == xs[1..] + ys;
    }
  }

  /** Lists made of pieces that read as the same lines read as the same lines. */
  lemma TerminatedCongruence(a: seq<string>, b: seq<string>, a': seq<string>, b': seq<string>)
    requires Terminated(a) == Terminated(a') && Terminated(b) == Terminated(b')
    ensures Terminated(a + b) == Terminated(a' + b')
  {
    TerminatedAppend(a, b);
    TerminatedAppend(a', b');
  }

  /** A line that ends with its own newline reads as that line followed by an empty line. */
  lemma TerminatedTrailingNewline(x: string)
    ensures Terminated([x + Nl]) == Terminated([x, ""])
  {
    assert [x, ""][1..] == [""];
    assert [x, ""][1..][1..] == [];
  }

  /** Two non-empty lists that read as the same lines join to the same text. */
  lemma JoinFromTerminated(xs: seq<string>, ys: seq<string>)
    requires |xs| > 0 && |ys| > 0
    requires Terminated(xs) == Terminated(ys)
    ensures Join(xs, Nl) == Join(ys, Nl)
  {
    JoinThenNewline(xs);
    JoinThenNewline(ys);
    var a, b := Join(xs, Nl), Join(ys, Nl);
    assert a == (a + Nl)[..|a|];
    assert b == (b + Nl)[..|b|];
  }

  /** An element that ends with a newline reads as the element without it followed by an
      empty line, wherever it stands in the list. */
  lemma SplitTrailingNewline(xs: seq<string>, i: nat, y: string)
    requires i < |xs| && xs[i] == y + Nl
    ensures Terminated(xs) == Terminated(xs[..i] + [y, ""] + xs[i + 1..])
  {
    assert xs == xs[..i] + [xs[i]] + xs[i + 1..];
    TerminatedAppend(xs[..i] + [xs[i]], xs[i + 1..]);
    TerminatedAppend(xs[..i], [xs[i]]);
    TerminatedAppend(xs[..i] + [y, ""], xs[i + 1..]);
    TerminatedAppend(xs[..i], [y, ""]);
    TerminatedTrailingNewline(y);
  }

  lemma ConcatAssoc<T>(a: seq<T>, b: seq<T>, c: seq<T>)
    ensures (a + b) + c == a + (b + c)
  {
  }

  /** A list is the elements before index k, the element at k, and the elements after it. */
  lemma SplitAround<T>(s: seq<T>, k: nat)
    requires k < |s|
    ensures s == s[..k] + ([s[k]] + s[k + 1..])
  {
    assert s[k..] == [s[k]] + s[k + 1..];
    assert s == s[..k] + s[k..];
  }

  lemma DropFirstOfConcat<T>(a: seq<T>, b: seq<T>)
    requires |a| > 0
    ensures (a + b)[0] == a[0] && (a + b)[1..] == a[1..] + b
  {
  }

  /** The middle piece of a slice that splits into three pieces. */
  lemma SliceOfConcat<T>(s: seq<T>, a: nat, b: nat, x: seq<T>, y: seq<T>, z: seq<T>)
    requires a <= b <= |s| && s[a..b] == x + y + z
    ensures a + |x| + |y| <= |s| && s[a + |x|..a + |x| + |y|] == y
  {
    forall i | 0 <= i < |y| ensures s[a + |x| + i] == y[i] {
      assert s[a..b][|x| + i] == (x + y + z)[|x| + i];
    }
  }

  /** Joining a list of two or more elements is joining all but the last, the separator,
      then the last element. */
  lemma {:induction false} JoinSnoc(xs: seq<string>)
    requires |xs| >= 2
    ensures Join(xs, Nl) == Join(xs[..|xs| - 1], Nl) + Nl + xs[|xs| - 1]
    decreases |xs|
  {
    if |xs| > 2 {
      JoinSnoc(xs[1..]);
      assert xs[1..][..|xs[1..]| - 1] == xs[..|xs| - 1][1..];
    } else {
      assert xs[..|xs| - 1] == [xs[0]];
    }
  }

  /** The lines before the last element, each with its newline, begin the joined text. */
  lemma JoinHasTerminatedPrefix(xs: seq<string>, k: nat)
    requires k < |xs|
    ensures Terminated(xs[..k]) <= Join(xs, Nl)
  {
    var r := Join(xs, Nl);
    assert xs == xs[..k] + xs[k..];
    JoinThenNewline(xs);
    TerminatedAppend(xs[..k], xs[k..]);
    assert |Terminated(xs[k..])| >= 1;
    assert r == (r + Nl)[..|r|];
  }

  /** The joined text of two or more elements ends with a newline and the last element. */
  lemma JoinEndsWithLast(xs: seq<string>)
    requires |xs| >= 2
    ensures var r, last := Join(xs, Nl), xs[|xs| - 1];
      |r| > |last| && r[|r| - |last| - 1..] == Nl + last
  {
    JoinSnoc(xs);
    var r, last := Join(xs, Nl), xs[|xs| - 1];
    var front := Join(xs[..|xs| - 1], Nl) + Nl;
    assert r == front + last;
    assert r[|r| - |last| - 1..] == [front[|front| - 1]] + last;
  }

  /** `pre` removed from the front of `s`, when `s` starts with it. */
  function StripPrefix(s: string, pre: string): (r: Option<string>)
    ensures r.Some? <==> pre <= s
    ensures r.Some? ==> s == pre + r.value
  {
    if pre <= s then Some(s[|pre|..]) else None
  }

  /** `suf` removed from the end of `s`, when `s` ends with it. */
  function StripSuffix(s: string, suf: string): (r: Option<string>)
    ensures r.Some? <==> (|suf| <= |s| && s[|s| - |suf|..] == suf)
    ensures r.Some? ==> s == r.value + suf
  {
    if |suf| <= |s| && s[|s| - |suf|..] == suf then Some(s[..|s| - |suf|]) else None
  }

  lemma StripPrefixOfConcat(pre: string, x: string)
    ensures StripPrefix(pre + x, pre) == Some(x)
  {
    assert pre <= pre + x;
    assert (pre + x)[|pre|..] == x;
  }

  lemma StripSuffixOfConcat(x: string, suf: string)
    ensures StripSuffix(x + suf, suf) == Some(x)
  {
    assert (x + suf)[|x + suf| - |suf|..] == suf;
    assert (x + suf)[..|x + suf| - |suf|] == x;
  }
}
