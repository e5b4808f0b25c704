/**
 The reference path handed to the delete call: `heads/` followed by the branch name,
 with every `#` percent-encoded as `%23` (section 2.1 of RFC 3986) so that the
 transport does not read it as the start of a URL fragment.
 */
module RefPath {
  import opened GoStrings

  const HeadsPrefix := "heads/"
  const EscapedHash := "%23"

  /** The escaping leaves the `heads/` prefix alone, and each `#` of the branch grows by two characters. */
  lemma EncodeShape(branch: string)
    ensures var tail := ReplaceAll(branch, '#', EscapedHash);
      && ReplaceAll(HeadsPrefix + branch, '#', EscapedHash) == HeadsPrefix + tail
      && |tail| == |branch| + 2 * Count(branch, '#')
  {
    ReplaceAllConcat(HeadsPrefix, branch, '#', EscapedHash);
    assert ReplaceAll(HeadsPrefix, '#', EscapedHash) == HeadsPrefix;
    ReplaceAllLength(branch, '#', EscapedHash);
    var n := Count(branch, '#');
    assert |EscapedHash| == 3;
    assert n * (|EscapedHash| - 1) == 2 * n;
  }

  /** The path for deleting the branch named `branch`. */
  function Encode(branch: string): (path: string)
    ensures HasPrefix(path, HeadsPrefix)
    ensures '#' !in path
    ensures |path| == |HeadsPrefix| + |branch| + 2 * Count(branch, '#')
    ensures '#' !in branch ==> path == HeadsPrefix + branch
    ensures path == HeadsPrefix + ReplaceAll(branch, '#', EscapedHash)
  {
    EncodeShape(branch);
    assert '#' !in EscapedHash;
    ReplaceAll(HeadsPrefix + branch, '#', EscapedHash)
  }

  /** Turns every `%23` back into `#`, scanning left to right. */
  function Unescape(s: string): string
    decreases |s|
  {
    if |s| == 0 then ""
    else if HasPrefix(s, EscapedHash) then "#" + Unescape(s[3..])
    else [s[0]] + Unescape(s[1..])
  }

  /** Decoding undoes the escaping of a string that has no `%` of its own. */
  lemma {:induction false} UnescapeReplace(s: string)
    requires '%' !in s
    ensures Unescape(ReplaceAll(s, '#', EscapedHash)) == s
    decreases |s|
  {
    if |s| > 0 {
      var rest := ReplaceAll(s[1..], '#', EscapedHash);
      var head := if s[0] == '#' then EscapedHash else [s[0]];
      var e := head + rest;
      assert ReplaceAll(s, '#', EscapedHash) == e;
      assert s == [s[0]] + s[1..];
      assert '%' !in s[1..];
      UnescapeReplace(s[1..]);
      if s[0] == '#' {
        assert HasPrefix(e, EscapedHash);
        assert e[3..] == rest;
        assert Unescape(e) == "#" + Unescape(rest);
      } else {
        assert e[0] == s[0] != '%' == EscapedHash[0];
        assert |e| >= 3 ==> e[..3][0] == e[0];
        assert !HasPrefix(e, EscapedHash);
        assert e[1..] == rest;
        assert Unescape(e) == [s[0]] + Unescape(rest);
      }
    }
  }

  /** For branch names without `%`, decoding the escaped part of the path recovers the branch name. */
  lemma UnescapeEncode(branch: string)
    requires '%' !in branch
    ensures Unescape(Encode(branch)[|HeadsPrefix|..]) == branch
  {
    var path := Encode(branch);
    assert path[|HeadsPrefix|..] == ReplaceAll(branch, '#', EscapedHash);
    UnescapeReplace(branch);
  }

  /** Without `%` in either name, different branch names get different paths. */
  lemma EncodeInjectiveWithoutPercent(a: string, b: string)
    requires '%' !in a && '%' !in b
    ensures Encode(a) == Encode(b) <==> a == b
  {
    if Encode(a) == Encode(b) {
      UnescapeEncode(a);
      UnescapeEncode(b);
    }
  }

  /** Two different branch names can share a path, so no decoding recovers every name. */
  lemma EncodeNotInjective()
    ensures "a#" != "a%23"
    ensures Encode("a#") == Encode("a%23")
  {
    assert "a#"[1] != "a%23"[1];
    assert "a#" == "a" + "#";
    ReplaceAllConcat("a", "#", '#', EscapedHash);
    assert "a%23" == "a%" + "23";
  }

  /** A branch with one `#` between hash-free parts (`feature#42`) is deleted through `heads/feature%2342`. */
  lemma EncodeOneHash(before: string, after: string)
    requires '#' !in before && '#' !in after
    ensures Encode(before + "#" + after) == HeadsPrefix + before + EscapedHash + after
  {
    var tail := "#" + after;
    assert before + "#" + after == before + tail;
    ReplaceAllConcat(before, tail, '#', EscapedHash);
    ReplaceAllConcat("#", after, '#', EscapedHash);
    assert "#"[1..] == "";
    assert ReplaceAll("#", '#', EscapedHash) == EscapedHash + "";
    var escaped := ReplaceAll(before + tail, '#', EscapedHash);
    assert escaped == before + (EscapedHash + after);
    assert Encode(before + tail) == HeadsPrefix + escaped;
    Regroup(HeadsPrefix, before, EscapedHash, after);
  }

  /** Concatenation of four strings, regrouped from the right to the left. */
  lemma Regroup(a: string, b: string, c: string, d: string)
    ensures a + (b + (c + d)) == a + b + c + d
  {
  }
}
