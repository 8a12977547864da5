/** The Python `str` operations the probes apply to captured command output:
    `isspace`, `strip()`, `split()`, `sep.join(...)`, `s.split(sep)`,
    `s.find(sub)` and the `sub in s` test. */
module PyStr {

  /** `c.isspace()`; `re`'s `\s` on str patterns accepts the same characters. */
  predicate IsSpace(c: char)
  {
    var n := c as int;
    (9 <= n <= 13) || (28 <= n <= 32) || n == 0x85 || n == 0xA0 || n == 0x1680
    || (0x2000 <= n <= 0x200A) || n == 0x2028 || n == 0x2029 || n == 0x202F
    || n == 0x205F || n == 0x3000
  }

  predicate AllSpace(s: string)
  {
    forall i :: 0 <= i < |s| ==> IsSpace(s[i])
  }

  /** A token of `split()`: non-empty and free of whitespace. */
  predicate IsToken(t: string)
  {
    |t| > 0 && forall i :: 0 <= i < |t| ==> !IsSpace(t[i])
  }

  predicate StartsWith(s: string, prefix: string)
  {
    |prefix| <= |s| && s[..|prefix|] == prefix
  }

  /** `sub` occurs in `s` starting at index `i`. */
  ghost predicate OccursAt(s: string, sub: string, i: int)
  {
    0 <= i && i + |sub| <= |s| && s[i..i + |sub|] == sub
  }

  // ---------------------------------------------------------------------------
  // sub in s, s.find(sub)

  /** Python's `sub in s`, scanning start positions from the left. */
  predicate Contains(s: string, sub: string)
    decreases |s|
  {
    StartsWith(s, sub) || (|s| > 0 && Contains(s[1..], sub))
  }

  /** An occurrence past the first character is an occurrence in the tail. */
  lemma OccursInTail(s: string, sub: string, i: int)
    requires |s| > 0 && i >= 1
    ensures OccursAt(s, sub, i) <==> OccursAt(s[1..], sub, i - 1)
  {
    if i + |sub| <= |s| {
      assert s[1..][i - 1..i - 1 + |sub|] == s[i..i + |sub|];
    }
  }

  /** An occurrence at index 0 is a prefix. */
  lemma OccursAtStart(s: string, sub: string)
    ensures OccursAt(s, sub, 0) <==> StartsWith(s, sub)
  {
    if |sub| <= |s| {
      assert s[0..|sub|] == s[..|sub|];
    }
  }

  /** The scan agrees with the positional definition of a substring, both ways. */
  lemma {:induction false} ContainsIff(s: string, sub: string)
    ensures Contains(s, sub) <==> exists i :: OccursAt(s, sub, i)
    decreases |s|
  {
    OccursAtStart(s, sub);
    if exists i :: OccursAt(s, sub, i) {
      var i :| OccursAt(s, sub, i);
      if i > 0 {
        OccursInTail(s, sub, i);
        ContainsIff(s[1..], sub);
      }
    }
    if Contains(s, sub) && !StartsWith(s, sub) {
      ContainsIff(s[1..], sub);
      var i :| OccursAt(s[1..], sub, i);
      OccursInTail(s, sub, i + 1);
    }
  }

  /** `s.find(sub)`: the first index at which `sub` occurs, or -1. */
  function Find(s: string, sub: string): (k: int)
    ensures k == -1 || OccursAt(s, sub, k)
    ensures k == -1 ==> forall j :: !OccursAt(s, sub, j)
    ensures forall j :: 0 <= j < k ==> !OccursAt(s, sub, j)
    decreases |s|
  {
    OccursAtStart(s, sub);
    if StartsWith(s, sub) then 0
    else if |s| == 0 then -1
    else
      var k := Find(s[1..], sub);
      assert forall j :: 1 <= j ==> (OccursAt(s, sub, j) <==> OccursAt(s[1..], sub, j - 1)) by {
        forall j | 1 <= j ensures OccursAt(s, sub, j) <==> OccursAt(s[1..], sub, j - 1) {
          OccursInTail(s, sub, j);
        }
      }
      if k == -1 then -1 else k + 1
  }

  // ---------------------------------------------------------------------------
  // sep.join(xs), s.split(sep)

  /** `sep.join(xs)`. */
  function Join(xs: seq<string>, sep: string): string
  {
    if |xs| == 0 then ""
    else if |xs| == 1 then xs[0]
    else xs[0] + sep + Join(xs[1..], sep)
  }

  /** `s.split(sep)` for a non-empty separator: the pieces between the
      occurrences of `sep`, found left to right without overlap. */
  function Split(s: string, sep: string): (parts: seq<string>)
    requires |sep| > 0
    ensures |parts| >= 1
    decreases |s|
  {
    var k := Find(s, sep);
    if k == -1 then [s] else [s[..k]] + Split(s[k + |sep|..], sep)
  }

  /** Splitting a joined list gives the list back, provided no item holds the
      first character of the separator. */
  lemma {:induction false} SplitJoin(xs: seq<string>, sep: string)
    requires |xs| >= 1 && |sep| >= 1
    requires forall k, j :: 0 <= k < |xs| && 0 <= j < |xs[k]| ==> xs[k][j] != sep[0]
    ensures Split(Join(xs, sep), sep) == xs
    decreases |xs|
  {
    var x := xs[0];
    assert forall j :: 0 <= j < |x| ==> x[j] != sep[0];
    if |xs| == 1 {
      FindFirstSeparator(x, sep, "");
    } else {
      var rest := Join(xs[1..], sep);
      assert Join(xs, sep) == x + sep + rest;
      SplitStep(x, sep, rest);
      assert forall k, j :: 0 <= k < |xs[1..]| && 0 <= j < |xs[1..][k]| ==>
        xs[1..][k][j] == xs[k + 1][j];
      SplitJoin(xs[1..], sep);
      assert xs == [x] + xs[1..];
    }
  }

  /** The first piece of `x + sep + rest` is `x`, and the split goes on in `rest`. */
  lemma SplitStep(x: string, sep: string, rest: string)
    requires |sep| > 0
    requires forall j :: 0 <= j < |x| ==> x[j] != sep[0]
    ensures Split(x + sep + rest, sep) == [x] + Split(rest, sep)
  {
    FindFirstSeparator(x, sep, rest);
    assert (x + sep + rest)[..|x|] == x;
    assert (x + sep + rest)[|x| + |sep|..] == rest;
  }

  /** In `x + sep + rest`, where `x` does not hold the separator's first
      character, the first separator starts right after `x`; with nothing after
      `x`, there is none. */
  lemma FindFirstSeparator(x: string, sep: string, rest: string)
    requires |sep| > 0
    requires forall j :: 0 <= j < |x| ==> x[j] != sep[0]
    ensures Find(x, sep) == -1
    ensures Find(x + sep + rest, sep) == |x|
  {
    var k := Find(x, sep);
    OccursAtHead(x, sep, k);
    var s := x + sep + rest;
    assert s[|x|..|x| + |sep|] == sep;
    assert OccursAt(s, sep, |x|);
    var m := Find(s, sep);
    OccursAtHead(s, sep, m);
    assert forall j :: 0 <= j < |x| ==> s[j] == x[j];
  }

  lemma OccursAtHead(s: string, sub: string, j: int)
    requires |sub| > 0
    ensures OccursAt(s, sub, j) ==> s[j] == sub[0]
  {
    if OccursAt(s, sub, j) {
      assert s[j..j + |sub|][0] == s[j];
    }
  }

  // ---------------------------------------------------------------------------
  // strip(), split()

  /** `s.lstrip()`: drop the leading whitespace. */
  function TrimLeft(s: string): (r: string)
    ensures |r| <= |s| && r == s[|s| - |r|..]
    ensures AllSpace(s[..|s| - |r|])
    ensures r == [] || !IsSpace(r[0])
    decreases |s|
  {
    if |s| > 0 && IsSpace(s[0]) then
      var r := TrimLeft(s[1..]);
      assert s[..|s| - |r|] == [s[0]] + s[1..][..|s| - 1 - |r|];
      r
    else s
  }

  /** `s.rstrip()`: drop the trailing whitespace. */
  function TrimRight(s: string): (r: string)
    ensures |r| <= |s| && r == s[..|r|]
    ensures AllSpace(s[|r|..])
    ensures r == [] || !IsSpace(r[|r| - 1])
    decreases |s|
  {
    if |s| > 0 && IsSpace(s[|s| - 1]) then
      var r := TrimRight(s[..|s| - 1]);
      assert s[|r|..] == s[..|s| - 1][|r|..] + [s[|s| - 1]];
      r
    else s
  }

  /** `s.strip()`: the text between the leading and the trailing whitespace. */
  function Strip(s: string): (r: string)
    ensures |r| <= |s|
    ensures r == [] || (!IsSpace(r[0]) && !IsSpace(r[|r| - 1]))
  {
    TrimRight(TrimLeft(s))
  }

  /** What `strip()` removes is whitespace at either end, and what it keeps is
      a slice of `s`. */
  lemma StripFrame(s: string)
    ensures exists i :: 0 <= i <= |s| - |Strip(s)| && Strip(s) == s[i..i + |Strip(s)|]
              && AllSpace(s[..i]) && AllSpace(s[i + |Strip(s)|..])
  {
    var t := TrimLeft(s);
    var r := TrimRight(t);
    var i := |s| - |t|;
    StripBounds(s, i, t, r);
    assert r == Strip(s);
    assert 0 <= i <= |s| - |r| && r == s[i..i + |r|] && AllSpace(s[..i]) && AllSpace(s[i + |r|..]);
  }

  /** Stripping `s` down to `t` on the left, then `t` down to `r` on the right,
      leaves `r` framed by whitespace inside `s`. */
  lemma StripBounds(s: string, i: nat, t: string, r: string)
    requires i <= |s| && t == s[i..] && AllSpace(s[..i])
    requires |r| <= |t| && r == t[..|r|] && AllSpace(t[|r|..])
    ensures i <= |s| - |r| && r == s[i..i + |r|] && AllSpace(s[..i]) && AllSpace(s[i + |r|..])
  {
    assert s[i + |r|..] == t[|r|..];
  }

  /** Length of the run of non-whitespace characters that starts `s`. */
  function NonSpaceRun(s: string): (n: nat)
    ensures n <= |s| && (n == |s| || IsSpace(s[n]))
    ensures forall i :: 0 <= i < n ==> !IsSpace(s[i])
    decreases |s|
  {
    if |s| == 0 || IsSpace(s[0]) then 0 else 1 + NonSpaceRun(s[1..])
  }

  /** `s.split()` with no argument: the maximal runs of non-whitespace, in order. */
  function Tokens(s: string): seq<string>
    decreases |s|
  {
    if |s| == 0 then []
    else if IsSpace(s[0]) then Tokens(s[1..])
    else [s[..NonSpaceRun(s)]] + Tokens(s[NonSpaceRun(s)..])
  }

  /** Text that starts with a non-space character starts with a token. */
  lemma FirstRunIsToken(t: string)
    requires |t| > 0 && !IsSpace(t[0])
    ensures NonSpaceRun(t) > 0 && IsToken(t[..NonSpaceRun(t)])
  {
  }

  /** Every piece `split()` returns is a token. */
  lemma {:induction false} TokensAreTokens(s: string)
    ensures forall k :: 0 <= k < |Tokens(s)| ==> IsToken(Tokens(s)[k])
    decreases |s|
  {
    if |s| > 0 {
      if IsSpace(s[0]) {
        TokensAreTokens(s[1..]);
      } else {
        var n := NonSpaceRun(s);
        FirstRunIsToken(s);
        TokensAreTokens(s[n..]);
        assert Tokens(s) == [s[..n]] + Tokens(s[n..]);
      }
    }
  }

  /** Whitespace alone has no tokens. */
  lemma {:induction false} TokensOfSpace(w: string)
    requires AllSpace(w)
    ensures Tokens(w) == []
    decreases |w|
  {
    if |w| > 0 {
      TokensOfSpace(w[1..]);
    }
  }

  /** Leading whitespace does not change `split()`. */
  lemma {:induction false} TokensSkipSpace(w: string, s: string)
    requires AllSpace(w)
    ensures Tokens(w + s) == Tokens(s)
    decreases |w|
  {
    if |w| > 0 {
      assert (w + s)[0] == w[0];
      assert (w + s)[1..] == w[1..] + s;
      TokensSkipSpace(w[1..], s);
    } else {
      assert w + s == s;
    }
  }

  /** The leading run of `t + rest` is exactly the token `t` when `rest` is
      empty or starts with whitespace. */
  lemma {:induction false} NonSpaceRunOf(t: string, rest: string)
    requires IsToken(t)
    requires rest == [] || IsSpace(rest[0])
    ensures NonSpaceRun(t + rest) == |t|
    decreases |t|
  {
    assert (t + rest)[1..] == t[1..] + rest;
    if |t| > 1 {
      NonSpaceRunOf(t[1..], rest);
    } else {
      assert t[1..] + rest == rest;
    }
  }

  /** Trailing whitespace does not change `split()`. */
  lemma {:induction false} TokensTrailingSpace(s: string, w: string)
    requires AllSpace(w)
    ensures Tokens(s + w) == Tokens(s)
    decreases |s|
  {
    if |s| == 0 {
      assert s + w == w;
      TokensOfSpace(w);
    } else if IsSpace(s[0]) {
      assert (s + w)[0] == s[0];
      assert (s + w)[1..] == s[1..] + w;
      TokensTrailingSpace(s[1..], w);
    } else {
      var n := NonSpaceRun(s);
      var head, tail := s[..n], s[n..];
      assert s == head + tail && s + w == head + (tail + w);
      FirstRunIsToken(s);
      NonSpaceRunOf(head, tail + w);
      assert (s + w)[..n] == head && (s + w)[n..] == tail + w;
      TokensTrailingSpace(tail, w);
    }
  }

  lemma TokensOfTrimLeft(s: string)
    ensures Tokens(TrimLeft(s)) == Tokens(s)
  {
    var t := TrimLeft(s);
    var w := s[..|s| - |t|];
    assert s == w + t;
    TokensSkipSpace(w, t);
  }

  lemma TokensOfTrimRight(t: string)
    ensures Tokens(TrimRight(t)) == Tokens(t)
  {
    var r := TrimRight(t);
    assert t == r + t[|r|..];
    TokensTrailingSpace(r, t[|r|..]);
  }

  /** `s.strip().split()` is `s.split()`. */
  lemma TokensOfStrip(s: string)
    ensures Tokens(Strip(s)) == Tokens(s)
  {
    TokensOfTrimLeft(s);
    TokensOfTrimRight(TrimLeft(s));
  }

  /** A token followed by nothing or by whitespace is the first token. */
  lemma TokensCons(t: string, rest: string)
    requires IsToken(t)
    requires rest == [] || IsSpace(rest[0])
    ensures Tokens(t + rest) == [t] + Tokens(rest)
  {
    var s := t + rest;
    NonSpaceRunOf(t, rest);
    assert s[0] == t[0];
    assert s[..|t|] == t && s[|t|..] == rest;
  }

  lemma JoinCons(xs: seq<string>, sep: string, tail: string)
    requires |xs| > 1
    ensures Join(xs, sep) + tail == xs[0] + (sep + (Join(xs[1..], sep) + tail))
  {
    assert Join(xs, sep) == xs[0] + sep + Join(xs[1..], sep);
  }

  /** A single token followed by whitespace splits to that token alone. */
  lemma TokenThenSpace(t: string, tail: string)
    requires IsToken(t) && AllSpace(tail)
    ensures Tokens(t + tail) == [t]
  {
    TokensCons(t, tail);
    TokensOfSpace(tail);
  }

  /** Text laid out as fields: each token followed by its run of whitespace,
      `ts[0] + ws[0] + ts[1] + ws[1] + ...`. */
  function Fields(ts: seq<string>, ws: seq<string>): string
    requires |ws| == |ts|
    decreases |ts|
  {
    if ts == [] then "" else ts[0] + ws[0] + Fields(ts[1..], ws[1..])
  }

  /** Every field is a token and every separator whitespace; all separators
      but the last are non-empty (the last is whatever ends the text). */
  predicate Separated(ts: seq<string>, ws: seq<string>)
  {
    |ws| == |ts|
    && (forall k :: 0 <= k < |ts| ==> IsToken(ts[k]) && AllSpace(ws[k]))
    && (forall k :: 0 <= k < |ts| - 1 ==> |ws[k]| > 0)
  }

  /** Splitting fields on whitespace gives back exactly the fields, whatever
      runs of whitespace separate them. */
  lemma {:induction false} TokensOfFieldsCore(ts: seq<string>, ws: seq<string>)
    requires Separated(ts, ws)
    ensures Tokens(Fields(ts, ws)) == ts
    decreases |ts|
  {
    if ts != [] {
      var rest := Fields(ts[1..], ws[1..]);
      assert Separated(ts[1..], ws[1..]) by {
        assert forall k :: 0 <= k < |ts| - 1 ==> ts[1..][k] == ts[k + 1] && ws[1..][k] == ws[k + 1];
      }
      TokensOfFieldsCore(ts[1..], ws[1..]);
      assert Fields(ts, ws) == ts[0] + (ws[0] + rest);
      if |ts| == 1 {
        assert ws[0] + rest == ws[0];
        TokenThenSpace(ts[0], ws[0]);
        assert [ts[0]] == ts;
      } else {
        assert (ws[0] + rest)[0] == ws[0][0];
        TokensCons(ts[0], ws[0] + rest);
        TokensSkipSpace(ws[0], rest);
        assert [ts[0]] + ts[1..] == ts;
      }
    }
  }

  /** `split()` of whitespace-separated fields, with any whitespace before the
      first one, is the list of fields. */
  lemma TokensOfFields(lead: string, ts: seq<string>, ws: seq<string>)
    requires AllSpace(lead) && Separated(ts, ws)
    ensures Tokens(lead + Fields(ts, ws)) == ts
  {
    TokensSkipSpace(lead, Fields(ts, ws));
    TokensOfFieldsCore(ts, ws);
  }
}
