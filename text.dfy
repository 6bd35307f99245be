/**
 * String helpers shared by the automaton builders, the optimizer and the
 * question-and-answer handlers: decimal rendering of counters, the
 * JavaScript `join`/`split`/`trim`/`toLowerCase` operations, and the
 * first-occurrence de-duplication that `[...new Set(xs)]` performs.
 */
module Text {

  /** The elements of a sequence, as a set. */
  function Members<T>(xs: seq<T>): set<T>
  {
    set x | x in xs
  }

  lemma MembersAppend<T>(xs: seq<T>, x: T)
    ensures Members(xs + [x]) == Members(xs) + {x}
  {
    assert forall y :: y in xs + [x] <==> y in xs || y == x;
  }

  lemma MembersConcat<T>(xs: seq<T>, ys: seq<T>)
    ensures Members(xs + ys) == Members(xs) + Members(ys)
  {
    assert forall y :: y in xs + ys <==> y in xs || y in ys;
  }

  /** No element occurs twice (a JavaScript `Set` in insertion order). */
  predicate NoDups<T(==)>(xs: seq<T>)
  {
    forall i, j :: 0 <= i < j < |xs| ==> xs[i] != xs[j]
  }

  /** Number of characters of `s` that belong to `cs`. */
  function Count(s: string, cs: set<char>): nat
  {
    if s == [] then 0 else (if s[0] in cs then 1 else 0) + Count(s[1..], cs)
  }

  lemma {:induction false} CountAppend(s: string, t: string, cs: set<char>)
    ensures Count(s + t, cs) == Count(s, cs) + Count(t, cs)
  {
    if s != [] {
      assert (s + t)[1..] == s[1..] + t;
      CountAppend(s[1..], t, cs);
    } else {
      assert s + t == t;
    }
  }

  // ---------------------------------------------------------------------
  // Decimal rendering of a counter, as in the template `q${n}`
  // ---------------------------------------------------------------------

  function DigitChar(d: nat): (c: char)
    requires d < 10
    ensures '0' <= c <= '9' && c as int - '0' as int == d
  {
    "0123456789"[d]
  }

  predicate IsDigits(s: string)
  {
    forall i :: 0 <= i < |s| ==> '0' <= s[i] <= '9'
  }

  /** The shortest decimal numeral of `n`, as JavaScript prints a non-negative integer. */
  function NatToString(n: nat): (s: string)
    ensures |s| >= 1 && IsDigits(s)
    decreases n
  {
    if n < 10 then [DigitChar(n)] else NatToString(n / 10) + [DigitChar(n % 10)]
  }

  /** Reads back a decimal numeral. */
  function ParseNat(s: string): nat
    requires IsDigits(s)
  {
    if s == [] then 0 else ParseNat(s[..|s| - 1]) * 10 + (s[|s| - 1] as int - '0' as int)
  }

  lemma {:induction false} ParseNatToString(n: nat)
    ensures ParseNat(NatToString(n)) == n
    decreases n
  {
    if n >= 10 {
      var s := NatToString(n);
      assert s[..|s| - 1] == NatToString(n / 10);
      ParseNatToString(n / 10);
    }
  }

  /** Distinct counters are rendered as distinct numerals. */
  lemma NatToStringInjective(m: nat, n: nat)
    requires m != n
    ensures NatToString(m) != NatToString(n)
  {
    ParseNatToString(m);
    ParseNatToString(n);
  }

  /** A character of `cs` that occurs in `s` is counted. */
  lemma {:induction false} CountMember(s: string, cs: set<char>, c: char)
    requires c in s && c in cs
    ensures Count(s, cs) >= 1
  {
    if s[0] != c {
      assert c in s[1..];
      CountMember(s[1..], cs, c);
    }
  }

  // ---------------------------------------------------------------------
  // Array.prototype.join and String.prototype.split on one character
  // ---------------------------------------------------------------------

  /** `xs.join(sep)`: the empty array joins to the empty string. */
  function Join(xs: seq<string>, sep: string): string
  {
    if xs == [] then "" else if |xs| == 1 then xs[0] else xs[0] + sep + Join(xs[1..], sep)
  }

  /** `s.split(sep)` for a one-character separator: the empty string splits to `[""]`. */
  function Split(s: string, sep: char): (parts: seq<string>)
    ensures |parts| == Count(s, {sep}) + 1
    ensures forall i :: 0 <= i < |parts| ==> sep !in parts[i]
  {
    if s == [] then [""]
    else
      var rest := Split(s[1..], sep);
      if s[0] == sep then [""] + rest else [[s[0]] + rest[0]] + rest[1..]
  }

  /** Joining the pieces with the separator gives back the string. */
  lemma {:induction false} JoinSplit(s: string, sep: char)
    ensures Join(Split(s, sep), [sep]) == s
  {
    if s != [] {
      var rest := Split(s[1..], sep);
      JoinSplit(s[1..], sep);
      if s[0] == sep {
        assert Split(s, sep) == [""] + rest;
        assert ([""] + rest)[1..] == rest;
        assert s == [sep] + s[1..];
      } else {
        var parts := Split(s, sep);
        assert parts == [[s[0]] + rest[0]] + rest[1..];
        if |rest| == 1 {
          assert Join(parts, [sep]) == [s[0]] + rest[0];
        } else {
          assert parts[1..] == rest[1..];
          assert Join(rest, [sep]) == rest[0] + [sep] + Join(rest[1..], [sep]);
        }
        assert s == [s[0]] + s[1..];
      }
    }
  }

  lemma {:induction false} SplitNoSep(x: string, t: string, sep: char)
    requires sep !in x
    ensures var p := Split(t, sep); Split(x + t, sep) == [x + p[0]] + p[1..]
  {
    if x != [] {
      assert (x + t)[1..] == x[1..] + t;
      SplitNoSep(x[1..], t, sep);
      assert [x[0]] + (x[1..] + Split(t, sep)[0]) == x + Split(t, sep)[0];
    } else {
      assert x + t == t;
      assert x + Split(t, sep)[0] == Split(t, sep)[0];
      assert [Split(t, sep)[0]] + Split(t, sep)[1..] == Split(t, sep);
    }
  }

  /** Splitting a join recovers the pieces when no piece holds the separator. */
  lemma {:induction false} SplitJoin(xs: seq<string>, sep: char)
    requires |xs| >= 1
    requires forall i :: 0 <= i < |xs| ==> sep !in xs[i]
    ensures Split(Join(xs, [sep]), sep) == xs
  {
    if |xs| == 1 {
      SplitNoSep(xs[0], "", sep);
      assert xs[0] + "" == xs[0];
    } else {
      var tail := Join(xs[1..], [sep]);
      SplitJoin(xs[1..], sep);
      assert Join(xs, [sep]) == xs[0] + ([sep] + tail);
      SplitNoSep(xs[0], [sep] + tail, sep);
      assert ([sep] + tail)[1..] == tail;
      assert Split([sep] + tail, sep) == [""] + xs[1..];
      assert xs[0] + "" == xs[0];
    }
  }

  /** `s.replace(/[cs]/g, '')`: every character of `cs` removed. */
  function RemoveChars(s: string, cs: set<char>): (r: string)
    ensures |r| == |s| - Count(s, cs)
    ensures forall i :: 0 <= i < |r| ==> r[i] !in cs
  {
    if s == [] then "" else (if s[0] in cs then "" else [s[0]]) + RemoveChars(s[1..], cs)
  }

  lemma {:induction false} RemoveCharsKeeps(s: string, cs: set<char>, c: char)
    requires c !in cs
    ensures Count(RemoveChars(s, cs), {c}) == Count(s, {c})
  {
    if s != [] {
      RemoveCharsKeeps(s[1..], cs, c);
      CountAppend(if s[0] in cs then "" else [s[0]], RemoveChars(s[1..], cs), {c});
    }
  }

  lemma {:induction false} RemoveCharsAppend(s: string, t: string, cs: set<char>)
    ensures RemoveChars(s + t, cs) == RemoveChars(s, cs) + RemoveChars(t, cs)
  {
    if s != [] {
      assert (s + t)[1..] == s[1..] + t;
      RemoveCharsAppend(s[1..], t, cs);
    } else {
      assert s + t == t;
    }
  }

  lemma {:induction false} RemoveCharsNone(s: string, cs: set<char>)
    requires forall i :: 0 <= i < |s| ==> s[i] !in cs
    ensures RemoveChars(s, cs) == s
  {
    if s != [] {
      RemoveCharsNone(s[1..], cs);
      assert s == [s[0]] + s[1..];
    }
  }

  /** `s.startsWith(p)`. */
  predicate StartsWith(s: string, p: string)
  {
    |p| <= |s| && s[..|p|] == p
  }

  // ---------------------------------------------------------------------
  // [...new Set(xs)]: the distinct elements in first-occurrence order
  // ---------------------------------------------------------------------

  /** Index of the first occurrence of `x` in `xs`. */
  function FirstIndex<T(==)>(xs: seq<T>, x: T): (k: nat)
    requires x in xs
    ensures k < |xs| && xs[k] == x && x !in xs[..k]
  {
    if xs[0] == x then 0 else assert xs[1..][FirstIndex(xs[1..], x)] == x; 1 + FirstIndex(xs[1..], x)
  }

  /**
   * Adding the elements of `ys` one by one to the insertion-ordered set `xs`,
   * as repeated `Set.prototype.add` does: an element already present stays
   * where it is, a new one goes to the end.
   */
  function AddAll<T(==)>(xs: seq<T>, ys: seq<T>): seq<T>
  {
    if ys == [] then xs
    else
      var p := AddAll(xs, ys[..|ys| - 1]);
      var y := ys[|ys| - 1];
      if y in p then p else p + [y]
  }

  /** Adding to a duplicate-free list keeps it duplicate-free, keeps it as a prefix, and adds exactly the elements of `ys`. */
  lemma {:induction false} AddAllFacts<T>(xs: seq<T>, ys: seq<T>)
    requires NoDups(xs)
    ensures var r := AddAll(xs, ys);
      NoDups(r) && |xs| <= |r| && r[..|xs|] == xs && Members(r) == Members(xs) + Members(ys)
  {
    if ys == [] {
      assert xs[..|xs|] == xs;
    } else {
      var pre, y := ys[..|ys| - 1], ys[|ys| - 1];
      var p := AddAll(xs, pre);
      AddAllFacts(xs, pre);
      assert ys == pre + [y];
      MembersAppend(pre, y);
      if y !in p {
        MembersAppend(p, y);
        assert (p + [y])[..|xs|] == p[..|xs|];
      }
    }
  }

  /** Adding one more element appends it unless it is already there. */
  lemma AddAllSnoc<T>(xs: seq<T>, ys: seq<T>, y: T)
    ensures AddAll(xs, ys + [y]) == if y in AddAll(xs, ys) then AddAll(xs, ys) else AddAll(xs, ys) + [y]
  {
    assert (ys + [y])[..|ys|] == ys;
  }

  /** Adding `ys` and then `zs` is adding `ys + zs`. */
  lemma {:induction false} AddAllAppend<T>(xs: seq<T>, ys: seq<T>, zs: seq<T>)
    ensures AddAll(AddAll(xs, ys), zs) == AddAll(xs, ys + zs)
  {
    if zs == [] {
      assert ys + zs == ys;
    } else {
      var pre, z := zs[..|zs| - 1], zs[|zs| - 1];
      AddAllAppend(xs, ys, pre);
      assert ys + zs == (ys + pre) + [z];
      AddAllSnoc(xs, ys + pre, z);
    }
  }

  /** `[...new Set(xs)]`: the elements of `xs` in first-occurrence order, each once. */
  function Distinct<T(==,!new)>(xs: seq<T>): (d: seq<T>)
    ensures NoDups(d)
    ensures forall y :: y in d <==> y in xs
  {
    AddAllFacts([], xs);
    assert forall y :: y in AddAll([], xs) <==> y in Members(AddAll([], xs));
    AddAll([], xs)
  }

  /** A list without duplicates passes through `[...new Set(xs)]` unchanged. */
  lemma {:induction false} DistinctNoDups<T(!new)>(xs: seq<T>)
    requires NoDups(xs)
    ensures Distinct(xs) == xs
  {
    if xs != [] {
      var pre, x := xs[..|xs| - 1], xs[|xs| - 1];
      assert xs == pre + [x];
      DistinctNoDups(pre);
      forall i | 0 <= i < |pre|
        ensures pre[i] != x
      {
        assert pre[i] == xs[i];
      }
    }
  }

  /** The distinct elements appear in the order of their first occurrences. */
  lemma {:induction false} DistinctOrder<T(!new)>(xs: seq<T>, i: nat, j: nat)
    requires i < j < |Distinct(xs)|
    ensures var d := Distinct(xs); FirstIndex(xs, d[i]) < FirstIndex(xs, d[j])
  {
    var d := Distinct(xs);
    var pre := xs[..|xs| - 1];
    var p := Distinct(pre);
    var x := xs[|xs| - 1];
    assert xs == pre + [x];
    assert d[i] in p by { assert i < |p|; }
    FirstIndexPrefix(xs, |xs| - 1, d[i]);
    if j < |p| {
      FirstIndexPrefix(xs, |xs| - 1, d[j]);
      DistinctOrder(pre, i, j);
    } else {
      assert d[j] == x && x !in p;
      assert x !in pre;
      assert FirstIndex(xs, x) == |xs| - 1;
    }
  }

  lemma FirstIndexPrefix<T>(xs: seq<T>, n: nat, x: T)
    requires n <= |xs| && x in xs[..n]
    ensures FirstIndex(xs, x) == FirstIndex(xs[..n], x) < n
  {
    var k := FirstIndex(xs, x);
    var k' := FirstIndex(xs[..n], x);
    assert xs[k'] == x;
    assert forall m :: 0 <= m < k ==> xs[..k][m] == xs[m];
    assert xs[..n][..k'] == xs[..k'];
    assert forall m :: 0 <= m < k' ==> xs[..k'][m] == xs[m];
  }

  // ---------------------------------------------------------------------
  // String.prototype.trim and toLowerCase
  // ---------------------------------------------------------------------

  /** The characters `trim` removes: ECMAScript WhiteSpace and LineTerminator. */
  predicate IsWhitespace(c: char)
  {
    || c == '\t' || c == '\n' || c == '\U{000B}' || c == '\U{000C}' || c == '\r' || c == ' '
    || c == '\U{00A0}' || c == '\U{1680}' || ('\U{2000}' <= c <= '\U{200A}')
    || c == '\U{2028}' || c == '\U{2029}' || c == '\U{202F}' || c == '\U{205F}'
    || c == '\U{3000}' || c == '\U{FEFF}'
  }

  /** `s` without its leading whitespace. */
  function TrimStart(s: string): (r: string)
    ensures |r| <= |s|
  {
    if s != [] && IsWhitespace(s[0]) then TrimStart(s[1..]) else s
  }

  lemma {:induction false} TrimStartFacts(s: string)
    ensures var r := TrimStart(s);
      && |r| <= |s| && r == s[|s| - |r|..]
      && (forall k :: 0 <= k < |s| - |r| ==> IsWhitespace(s[k]))
      && (r == [] || !IsWhitespace(r[0]))
  {
    if s != [] && IsWhitespace(s[0]) {
      TrimStartFacts(s[1..]);
    }
  }

  /** `s` without its trailing whitespace. */
  function TrimEnd(s: string): (r: string)
    ensures |r| <= |s|
  {
    if s != [] && IsWhitespace(s[|s| - 1]) then TrimEnd(s[..|s| - 1]) else s
  }

  lemma {:induction false} TrimEndFacts(s: string)
    ensures var r := TrimEnd(s);
      && |r| <= |s| && r == s[..|r|]
      && (forall k :: |r| <= k < |s| ==> IsWhitespace(s[k]))
      && (r == [] || !IsWhitespace(r[|r| - 1]))
  {
    if s != [] && IsWhitespace(s[|s| - 1]) {
      TrimEndFacts(s[..|s| - 1]);
    }
  }

  /** `r` is `s` with the whitespace before offset `i` and after `i + |r|` cut away. */
  predicate TrimmedAt(s: string, i: nat, r: string)
  {
    && i + |r| <= |s| && r == s[i..i + |r|]
    && (forall k :: 0 <= k < i ==> IsWhitespace(s[k]))
    && (forall k :: i + |r| <= k < |s| ==> IsWhitespace(s[k]))
  }

  /** `s.trim()`: leading and trailing whitespace cut away. */
  function Trim(s: string): string
  {
    TrimEnd(TrimStart(s))
  }

  /** `s.trim()` is an infix of `s` with only whitespace around it, and it neither starts nor ends with whitespace. */
  lemma TrimFacts(s: string)
    ensures TrimmedAt(s, |s| - |TrimStart(s)|, Trim(s))
    ensures Trim(s) == [] || (!IsWhitespace(Trim(s)[0]) && !IsWhitespace(Trim(s)[|Trim(s)| - 1]))
  {
    var t := TrimStart(s);
    var r := TrimEnd(t);
    TrimStartFacts(s);
    TrimEndFacts(t);
    TrimSplits(s, t, r);
    assert r != [] ==> r[0] == t[0];
  }

  lemma TrimSplits(s: string, t: string, r: string)
    requires |t| <= |s| && t == s[|s| - |t|..]
    requires forall k :: 0 <= k < |s| - |t| ==> IsWhitespace(s[k])
    requires |r| <= |t| && r == t[..|r|]
    requires forall k :: |r| <= k < |t| ==> IsWhitespace(t[k])
    ensures TrimmedAt(s, |s| - |t|, r)
  {
    var i := |s| - |t|;
    assert t == s[i..];
    assert r == t[..|r|];
    assert r == s[i..i + |r|];
    forall k | i + |r| <= k < |s|
      ensures IsWhitespace(s[k])
    {
      assert s[k] == t[k - i];
    }
  }

  /** The trimmed infix is unique: two cuts that both leave non-whitespace ends are the same. */
  lemma TrimUnique(s: string, i: nat, r: string, j: nat, q: string)
    requires TrimmedAt(s, i, r) && (r == [] || (!IsWhitespace(r[0]) && !IsWhitespace(r[|r| - 1])))
    requires TrimmedAt(s, j, q) && (q == [] || (!IsWhitespace(q[0]) && !IsWhitespace(q[|q| - 1])))
    ensures r == q
  {
    if r != [] && q != [] {
      assert s[i] == r[0] && s[j] == q[0];
      assert i == j;
      assert s[i + |r| - 1] == r[|r| - 1] && s[j + |q| - 1] == q[|q| - 1];
      assert |r| == |q|;
    }
  }

  /** A cut with non-whitespace ends is what `trim()` leaves. */
  lemma TrimIs(s: string, i: nat, r: string)
    requires TrimmedAt(s, i, r) && (r == [] || (!IsWhitespace(r[0]) && !IsWhitespace(r[|r| - 1])))
    ensures Trim(s) == r
  {
    TrimFacts(s);
    TrimUnique(s, i, r, |s| - |TrimStart(s)|, Trim(s));
  }

  /** `s.trim()` is empty exactly when `s` is all whitespace. */
  lemma TrimEmpty(s: string)
    ensures Trim(s) == [] <==> forall k :: 0 <= k < |s| ==> IsWhitespace(s[k])
  {
    var r := Trim(s);
    var i := |s| - |TrimStart(s)|;
    TrimFacts(s);
    if r != [] {
      assert s[i] == r[0];
    }
    assert TrimmedAt(s, i, r);
  }

  lemma TrimmedAtPadded(w1: string, x: string, w2: string, i: nat, r: string)
    requires forall k :: 0 <= k < |w1| ==> IsWhitespace(w1[k])
    requires forall k :: 0 <= k < |w2| ==> IsWhitespace(w2[k])
    requires TrimmedAt(x, i, r)
    ensures TrimmedAt(w1 + x + w2, |w1| + i, r)
  {
    var s := w1 + x + w2;
    assert s[|w1| + i..|w1| + i + |r|] == x[i..i + |r|];
    forall k | 0 <= k < |w1| + i ensures IsWhitespace(s[k]) {
      if k >= |w1| {
        assert s[k] == x[k - |w1|];
      }
    }
    forall k | |w1| + i + |r| <= k < |s| ensures IsWhitespace(s[k]) {
      if k < |w1| + |x| {
        assert s[k] == x[k - |w1|];
      } else {
        assert s[k] == w2[k - |w1| - |x|];
      }
    }
  }

  /** Whitespace around a text does not change what `trim()` leaves. */
  lemma TrimPadded(w1: string, x: string, w2: string)
    requires forall k :: 0 <= k < |w1| ==> IsWhitespace(w1[k])
    requires forall k :: 0 <= k < |w2| ==> IsWhitespace(w2[k])
    ensures Trim(w1 + x + w2) == Trim(x)
  {
    var s := w1 + x + w2;
    var r := Trim(x);
    var i := |x| - |TrimStart(x)|;
    TrimFacts(x);
    TrimmedAtPadded(w1, x, w2, i, r);
    TrimIs(s, |w1| + i, r);
  }

  /** `toLowerCase` on one character, for the ASCII letters. */
  function LowerChar(c: char): char
  {
    if 'A' <= c <= 'Z' then (c as int + 32) as char else c
  }

  /** `s.toLowerCase()`, ASCII letters only. */
  function Lower(s: string): (r: string)
    ensures |r| == |s| && forall i :: 0 <= i < |s| ==> r[i] == LowerChar(s[i])
  {
    if s == [] then "" else [LowerChar(s[0])] + Lower(s[1..])
  }

  lemma LowerAppend(s: string, t: string)
    ensures Lower(s + t) == Lower(s) + Lower(t)
  {
    assert forall i :: 0 <= i < |s + t| ==> Lower(s + t)[i] == (Lower(s) + Lower(t))[i];
  }

  lemma LowerIdempotent(s: string)
    ensures Lower(Lower(s)) == Lower(s)
  {
  }

  /** Lowering leaves whitespace as it is. */
  lemma LowerWhitespace(s: string)
    requires forall k :: 0 <= k < |s| ==> IsWhitespace(s[k])
    ensures Lower(s) == s
  {
  }
}
