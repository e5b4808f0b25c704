/**
 The few operations of Go's `strings` package that the reconciliation pass uses,
 restricted to the argument shapes it uses them with: a substring test, splitting
 on a one-character separator and replacing every occurrence of one character.
 */
module GoStrings {

  /** `prefix` is an initial segment of `s` (Go's `strings.HasPrefix`). */
  predicate HasPrefix(s: string, prefix: string) {
    |prefix| <= |s| && s[..|prefix|] == prefix
  }

  /** Go's `strings.Contains(s, sub)`: `sub` occurs somewhere in `s`, searched left to right. */
  predicate Contains(s: string, sub: string)
    decreases |s|
  {
    HasPrefix(s, sub) || (|s| > 0 && Contains(s[1..], sub))
  }

  /** `sub` occurs in `s` starting at offset `i`. */
  ghost predicate OccursAt(s: string, sub: string, i: int) {
    0 <= i && i + |sub| <= |s| && s[i..i + |sub|] == sub
  }

  /** The left-to-right search finds `sub` exactly when it occurs at some offset. */
  lemma {:induction false} ContainsIffOccurs(s: string, sub: string)
    ensures Contains(s, sub) <==> exists i :: OccursAt(s, sub, i)
    decreases |s|
  {
    if HasPrefix(s, sub) {
      assert OccursAt(s, sub, 0);
    } else if |s| == 0 {
    } else {
      ContainsIffOccurs(s[1..], sub);
      if Contains(s[1..], sub) {
        var i :| OccursAt(s[1..], sub, i);
        assert s[i + 1..i + 1 + |sub|] == s[1..][i..i + |sub|];
        assert OccursAt(s, sub, i + 1);
      }
      if exists i :: OccursAt(s, sub, i) {
        var i :| OccursAt(s, sub, i);
        assert i != 0;
        assert s[1..][i - 1..i - 1 + |sub|] == s[i..i + |sub|];
        assert OccursAt(s[1..], sub, i - 1);
      }
    }
  }

  /** Whatever surrounds it, a string contains `sub` once it is placed between `before` and `after`. */
  lemma ContainsInfix(before: string, sub: string, after: string)
    ensures Contains(before + sub + after, sub)
  {
    var s := before + sub + after;
    assert s[|before|..|before| + |sub|] == sub;
    assert OccursAt(s, sub, |before|);
    ContainsIffOccurs(s, sub);
  }

  /** Number of occurrences of the character `c` in `s`. */
  function Count(s: string, c: char): (n: nat)
    ensures n <= |s|
    ensures n == 0 <==> c !in s
    decreases |s|
  {
    if |s| == 0 then 0
    else (if s[0] == c then 1 else 0) + Count(s[1..], c)
  }

  /** The count agrees with the multiplicity of `c` in the multiset of the characters of `s`. */
  lemma {:induction false} CountIsMultiplicity(s: string, c: char)
    ensures Count(s, c) == multiset(s)[c]
    decreases |s|
  {
    if |s| > 0 {
      CountIsMultiplicity(s[1..], c);
      assert s == [s[0]] + s[1..];
      assert multiset(s) == multiset([s[0]]) + multiset(s[1..]);
    }
  }

  /** Counting distributes over concatenation. */
  lemma {:induction false} CountConcat(a: string, b: string, c: char)
    ensures Count(a + b, c) == Count(a, c) + Count(b, c)
    decreases |a|
  {
    if |a| > 0 {
      assert (a + b)[1..] == a[1..] + b;
      CountConcat(a[1..], b, c);
    } else {
      assert a + b == b;
    }
  }

  /**
   Go's `strings.Replace(s, string(target), replacement, -1)`: every occurrence of the
   character `target` is replaced, left to right, by `replacement`.
   */
  function ReplaceAll(s: string, target: char, replacement: string): (r: string)
    ensures target !in replacement ==> target !in r
    ensures target !in s ==> r == s
    decreases |s|
  {
    if |s| == 0 then ""
    else (if s[0] == target then replacement else [s[0]]) + ReplaceAll(s[1..], target, replacement)
  }

  /** One more factor of `d`. */
  lemma MulSucc(k: int, d: int)
    ensures (1 + k) * d == d + k * d
  {
  }

  /** Each occurrence of `target` trades one character for the whole replacement. */
  lemma {:induction false} ReplaceAllLength(s: string, target: char, replacement: string)
    ensures |ReplaceAll(s, target, replacement)| == |s| + Count(s, target) * (|replacement| - 1)
    decreases |s|
  {
    if |s| > 0 {
      ReplaceAllLength(s[1..], target, replacement);
      var k := Count(s[1..], target);
      var d := |replacement| - 1;
      var tail := |ReplaceAll(s[1..], target, replacement)|;
      if s[0] == target {
        assert |ReplaceAll(s, target, replacement)| == |replacement| + tail;
        assert Count(s, target) == 1 + k;
        MulSucc(k, d);
      } else {
        assert |ReplaceAll(s, target, replacement)| == 1 + tail;
        assert Count(s, target) == k;
      }
    }
  }

  /** Replacing distributes over concatenation: each part can be rewritten on its own. */
  lemma {:induction false} ReplaceAllConcat(a: string, b: string, target: char, replacement: string)
    ensures ReplaceAll(a + b, target, replacement) == ReplaceAll(a, target, replacement) + ReplaceAll(b, target, replacement)
    decreases |a|
  {
    if |a| == 0 {
      assert a + b == b;
    } else {
      assert (a + b)[0] == a[0];
      assert (a + b)[1..] == a[1..] + b;
      ReplaceAllConcat(a[1..], b, target, replacement);
    }
  }

  /**
   Go's `strings.Split(s, string(sep))`: the maximal pieces of `s` between occurrences
   of `sep`. The empty string splits into one empty piece, as in Go.
   */
  function Split(s: string, sep: char): (parts: seq<string>)
    ensures |parts| == Count(s, sep) + 1
    ensures forall i :: 0 <= i < |parts| ==> sep !in parts[i]
    decreases |s|
  {
    if |s| == 0 then [""]
    else
      var rest := Split(s[1..], sep);
      if s[0] == sep then [""] + rest
      else [[s[0]] + rest[0]] + rest[1..]
  }

  /** Go's `strings.Join(parts, string(sep))`: the pieces with `sep` between neighbours. */
  function Join(parts: seq<string>, sep: char): (s: string)
    decreases |parts|
  {
    if |parts| == 0 then ""
    else if |parts| == 1 then parts[0]
    else parts[0] + [sep] + Join(parts[1..], sep)
  }

  /** Joining a first piece onto a non-empty rest: the head is glued on with one separator. */
  lemma JoinCons(head: string, rest: seq<string>, sep: char)
    requires |rest| >= 1
    ensures Join([head] + rest, sep) == head + [sep] + Join(rest, sep)
  {
    assert ([head] + rest)[1..] == rest;
  }

  /** The first piece is a prefix of the joined string. */
  lemma JoinStartsWithHead(parts: seq<string>, sep: char)
    requires |parts| >= 1
    ensures HasPrefix(Join(parts, sep), parts[0])
  {
    var s := Join(parts, sep);
    if |parts| > 1 {
      assert s == parts[0] + ([sep] + Join(parts[1..], sep));
    }
    assert s[..|parts[0]|] == parts[0];
  }

  /** With three or more pieces, the first two and a separator after each start the joined string. */
  lemma JoinTwoHeads(parts: seq<string>, sep: char)
    requires |parts| >= 3
    ensures HasPrefix(Join(parts, sep), parts[0] + [sep] + parts[1] + [sep])
  {
    var tail := Join(parts[2..], sep);
    assert parts[1..][1..] == parts[2..];
    assert Join(parts[1..], sep) == parts[1] + [sep] + tail;
    var pre := parts[0] + [sep] + parts[1] + [sep];
    assert Join(parts, sep) == pre + tail;
    assert (pre + tail)[..|pre|] == pre;
  }

  /** Gluing a character onto the first piece glues it onto the joined string. */
  lemma JoinGlue(c: char, parts: seq<string>, sep: char)
    requires |parts| >= 1
    ensures Join([[c] + parts[0]] + parts[1..], sep) == [c] + Join(parts, sep)
  {
    var q := [[c] + parts[0]] + parts[1..];
    assert q[0] == [c] + parts[0];
    if |parts| > 1 {
      assert q[1..] == parts[1..];
      assert Join(q, sep) == ([c] + parts[0]) + [sep] + Join(parts[1..], sep);
      assert Join(parts, sep) == parts[0] + [sep] + Join(parts[1..], sep);
    }
  }

  /** Splitting then joining with the same separator gives back the original string. */
  lemma {:induction false} JoinSplit(s: string, sep: char)
    ensures Join(Split(s, sep), sep) == s
    decreases |s|
  {
    if |s| > 0 {
      var rest := Split(s[1..], sep);
      JoinSplit(s[1..], sep);
      assert s == [s[0]] + s[1..];
      if s[0] == sep {
        assert Split(s, sep) == [""] + rest;
        JoinCons("", rest, sep);
      } else {
        SplitNonSeparator(s, sep);
        JoinGlue(s[0], rest, sep);
      }
    }
  }

  /** One step of the split on a string whose first character is not the separator. */
  lemma SplitNonSeparator(s: string, sep: char)
    requires |s| > 0 && s[0] != sep
    ensures var rest := Split(s[1..], sep); Split(s, sep) == [[s[0]] + rest[0]] + rest[1..]
  {
  }

  /** Splitting a string that starts with a non-separator character `c` glues `c` onto the first piece. */
  lemma SplitCons(c: char, u: string, sep: char)
    requires c != sep
    ensures var su := Split(u, sep); Split([c] + u, sep) == [[c] + su[0]] + su[1..]
  {
    assert ([c] + u)[1..] == u;
    SplitNonSeparator([c] + u, sep);
  }

  /** `SplitCons` for a string given as a character, then `q`, then `t`. */
  lemma SplitConsAppend(c: char, q: string, t: string, sep: char)
    requires c != sep
    ensures var su := Split(q + t, sep); Split([c] + q + t, sep) == [[c] + su[0]] + su[1..]
  {
    assert [c] + q + t == [c] + (q + t);
    SplitCons(c, q + t, sep);
  }

  /** Splitting a separator-free prefix followed by `t` glues the prefix onto the first piece of `t`. */
  lemma {:induction false} SplitPrefix(p: string, t: string, sep: char)
    requires sep !in p
    ensures var st := Split(t, sep); Split(p + t, sep) == [p + st[0]] + st[1..]
    decreases |p|
  {
    var st := Split(t, sep);
    if |p| == 0 {
      assert p + t == t;
      assert p + st[0] == st[0];
      assert [st[0]] + st[1..] == st;
    } else {
      var c, q := p[0], p[1..];
      assert sep !in q;
      SplitPrefix(q, t, sep);
      SplitPrefixStep(c, q, t, sep);
      assert [c] + q == p;
    }
  }

  /** The inductive step of `SplitPrefix`: one more separator-free character in front. */
  lemma SplitPrefixStep(c: char, q: string, t: string, sep: char)
    requires c != sep
    requires var st := Split(t, sep); Split(q + t, sep) == [q + st[0]] + st[1..]
    ensures var st := Split(t, sep); Split([c] + q + t, sep) == [[c] + q + st[0]] + st[1..]
  {
    SplitConsAppend(c, q, t, sep);
    GluePieces(c, q, Split(t, sep), Split(q + t, sep), Split([c] + q + t, sep));
  }

  /** Gluing a character onto a first piece that itself starts with `pre`. */
  lemma GluePieces(c: char, pre: string, st: seq<string>, su: seq<string>, whole: seq<string>)
    requires |st| >= 1
    requires su == [pre + st[0]] + st[1..]
    requires whole == [[c] + su[0]] + su[1..]
    ensures whole == [([c] + pre) + st[0]] + st[1..]
  {
    assert su[1..] == st[1..];
    assert [c] + (pre + st[0]) == ([c] + pre) + st[0];
  }

  /** Joining separator-free pieces then splitting gives back the pieces. */
  lemma {:induction false} SplitJoin(parts: seq<string>, sep: char)
    requires |parts| >= 1
    requires forall i :: 0 <= i < |parts| ==> sep !in parts[i]
    ensures Split(Join(parts, sep), sep) == parts
    decreases |parts|
  {
    if |parts| == 1 {
      SplitPrefix(parts[0], "", sep);
      assert parts[0] + "" == parts[0];
    } else {
      var j := Join(parts[1..], sep);
      SplitJoin(parts[1..], sep);
      assert Join(parts, sep) == parts[0] + ([sep] + j);
      SplitPrefix(parts[0], [sep] + j, sep);
      assert ([sep] + j)[1..] == j;
      assert Split([sep] + j, sep) == [""] + parts[1..];
      assert parts[0] + "" == parts[0];
      assert [parts[0]] + parts[1..] == parts;
    }
  }
}
