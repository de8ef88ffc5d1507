/** The two pure helpers of the proxy's utilities.py: the escape-aware tokenizer
    `split_unescape` and the archive-filename parser `getNameVersion`. */
module Utilities {

  import opened Strings

  // ---------------------------------------------------------------------------
  // split_unescape
  // ---------------------------------------------------------------------------

  /** Python's `s.count(c)`. */
  function CountChar(s: string, c: char): nat {
    if |s| == 0 then 0 else (if s[0] == c then 1 else 0) + CountChar(s[1..], c)
  }

  lemma {:induction false} CountCharConcat(a: string, b: string, c: char)
    ensures CountChar(a + b, c) == CountChar(a, c) + CountChar(b, c)
    decreases |a|
  {
    if |a| > 0 {
      CountCharConcat(a[1..], b, c);
      assert (a + b)[1..] == a[1..] + b;
    } else {
      assert a + b == b;
    }
  }

  lemma {:induction false} CountCharAbsent(s: string, c: char)
    ensures CountChar(s, c) == 0 <==> c !in s
    decreases |s|
  {
    if |s| > 0 {
      CountCharAbsent(s[1..], c);
      assert s == [s[0]] + s[1..];
    }
  }

  /** The left-to-right scan of `split_unescape` (utilities.py lines 42-62): `current` is
      the token being built, `ret` the tokens already closed, `count` the splits so far. */
  function Scan(s: string, delim: char, escape: char, unescape: bool, maxsplit: int,
                i: nat, current: string, ret: seq<string>, count: nat): seq<string>
    requires i <= |s|
    decreases |s| - i
  {
    if i == |s| then ret + [current]
    else if s[i] == escape then
      if i + 1 < |s| then
        // the next character is taken literally; the escape is kept only when not unescaping
        Scan(s, delim, escape, unescape, maxsplit, i + 2,
             current + (if unescape then [] else [escape]) + [s[i + 1]], ret, count)
      else
        // a trailing escape: appended before `next` fails when not unescaping, and by
        // the StopIteration handler when unescaping
        Scan(s, delim, escape, unescape, maxsplit, i + 1,
             current + (if unescape then [] else [escape]) + (if unescape then [escape] else []),
             ret, count)
    else if s[i] == delim then
      if maxsplit > 0 && count + 1 >= maxsplit then ret + [current, s[i + 1..]]
      else Scan(s, delim, escape, unescape, maxsplit, i + 1, [], ret + [current], count + 1)
    else
      Scan(s, delim, escape, unescape, maxsplit, i + 1, current + [s[i]], ret, count)
  }

  /** A front-to-back description of the tokens, independent of the scan: an escape makes
      the following character literal, an unescaped delimiter closes a token, and once
      `limit` splits are used up the rest is one verbatim token (`limit <= 0`: no limit). */
  function Tokens(s: string, delim: char, escape: char, unescape: bool, limit: int): (r: seq<string>)
    ensures |r| > 0
    decreases |s|
  {
    if |s| == 0 then [""]
    else if s[0] == escape then
      if |s| == 1 then [[escape]]
      else PrependToFirst((if unescape then [] else [escape]) + [s[1]],
                          Tokens(s[2..], delim, escape, unescape, limit))
    else if s[0] == delim then
      if limit == 1 then ["", s[1..]]
      else [""] + Tokens(s[1..], delim, escape, unescape, if limit > 0 then limit - 1 else limit)
    else PrependToFirst([s[0]], Tokens(s[1..], delim, escape, unescape, limit))
  }

  /** Splits still allowed after `count` splits under `maxsplit` (negative: unlimited). */
  function Remaining(maxsplit: int, count: nat): int {
    if maxsplit > 0 then maxsplit - count else maxsplit
  }

  /** The scan computes the tokens of the rest of the input, the first one glued to the
      token under construction. */
  lemma {:induction false} ScanMatchesTokens(s: string, delim: char, escape: char, unescape: bool,
                                             maxsplit: int, i: nat, current: string,
                                             ret: seq<string>, count: nat)
    requires i <= |s|
    requires maxsplit != 0 && (maxsplit > 0 ==> count < maxsplit)
    ensures Scan(s, delim, escape, unescape, maxsplit, i, current, ret, count)
         == ret + PrependToFirst(current, Tokens(s[i..], delim, escape, unescape, Remaining(maxsplit, count)))
    decreases |s| - i, 1
  {
    if i == |s| {
      assert s[i..] == [];
      assert current + "" == current;
    } else if s[i] == escape && i + 1 < |s| {
      ScanEscapePair(s, delim, escape, unescape, maxsplit, i, current, ret, count);
    } else if s[i] == escape {
      ScanEscapeTrailing(s, delim, escape, unescape, maxsplit, i, current, ret, count);
    } else if s[i] == delim {
      ScanDelim(s, delim, escape, unescape, maxsplit, i, current, ret, count);
    } else {
      ScanPlain(s, delim, escape, unescape, maxsplit, i, current, ret, count);
    }
  }

  lemma {:induction false} ScanEscapePair(s: string, delim: char, escape: char, unescape: bool,
                                          maxsplit: int, i: nat, current: string,
                                          ret: seq<string>, count: nat)
    requires i + 1 < |s| && s[i] == escape
    requires maxsplit != 0 && (maxsplit > 0 ==> count < maxsplit)
    ensures Scan(s, delim, escape, unescape, maxsplit, i, current, ret, count)
         == ret + PrependToFirst(current, Tokens(s[i..], delim, escape, unescape, Remaining(maxsplit, count)))
    decreases |s| - i, 0
  {
    var limit := Remaining(maxsplit, count);
    var rest := s[i..];
    var x := (if unescape then [] else [escape]) + [s[i + 1]];
    assert current + x == current + (if unescape then [] else [escape]) + [s[i + 1]];
    ScanMatchesTokens(s, delim, escape, unescape, maxsplit, i + 2, current + x, ret, count);
    assert rest[0] == escape && rest[1] == s[i + 1] && rest[2..] == s[i + 2..];
    var t := Tokens(s[i + 2..], delim, escape, unescape, limit);
    assert Tokens(rest, delim, escape, unescape, limit) == PrependToFirst(x, t);
    PrependToFirstTwice(current, x, t);
  }

  lemma {:induction false} ScanEscapeTrailing(s: string, delim: char, escape: char, unescape: bool,
                                              maxsplit: int, i: nat, current: string,
                                              ret: seq<string>, count: nat)
    requires i + 1 == |s| && s[i] == escape
    requires maxsplit != 0 && (maxsplit > 0 ==> count < maxsplit)
    ensures Scan(s, delim, escape, unescape, maxsplit, i, current, ret, count)
         == ret + PrependToFirst(current, Tokens(s[i..], delim, escape, unescape, Remaining(maxsplit, count)))
    decreases |s| - i, 0
  {
    var c := current + (if unescape then [] else [escape]) + (if unescape then [escape] else []);
    assert c == current + [escape];
    ScanMatchesTokens(s, delim, escape, unescape, maxsplit, i + 1, c, ret, count);
    assert s[i..] == [escape];
    assert s[i + 1..] == [];
    assert c + "" == c;
  }

  /** One unfolding of `Tokens` at an unescaped delimiter. */
  lemma TokensAtDelim(rest: string, delim: char, escape: char, unescape: bool, limit: int)
    requires |rest| > 0 && rest[0] == delim && delim != escape
    ensures Tokens(rest, delim, escape, unescape, limit)
         == if limit == 1 then ["", rest[1..]]
            else [""] + Tokens(rest[1..], delim, escape, unescape, if limit > 0 then limit - 1 else limit)
  {
  }

  lemma {:induction false} ScanDelim(s: string, delim: char, escape: char, unescape: bool,
                                     maxsplit: int, i: nat, current: string,
                                     ret: seq<string>, count: nat)
    requires i < |s| && s[i] == delim && s[i] != escape
    requires maxsplit != 0 && (maxsplit > 0 ==> count < maxsplit)
    ensures Scan(s, delim, escape, unescape, maxsplit, i, current, ret, count)
         == ret + PrependToFirst(current, Tokens(s[i..], delim, escape, unescape, Remaining(maxsplit, count)))
    decreases |s| - i, 0
  {
    var limit := Remaining(maxsplit, count);
    var rest := s[i..];
    assert rest[0] == delim && rest[1..] == s[i + 1..];
    TokensAtDelim(rest, delim, escape, unescape, limit);
    if maxsplit > 0 && count + 1 >= maxsplit {
      assert limit == 1;
      ScanDelimLast(s, delim, escape, unescape, maxsplit, i, current, ret, count);
    } else {
      var next := Remaining(maxsplit, count + 1);
      assert next == if limit > 0 then limit - 1 else limit;
      ScanMatchesTokens(s, delim, escape, unescape, maxsplit, i + 1, [], ret + [current], count + 1);
      var t := Tokens(s[i + 1..], delim, escape, unescape, next);
      assert Tokens(rest, delim, escape, unescape, limit) == [""] + t;
      ScanDelimNext(s, delim, escape, unescape, maxsplit, i, current, ret, count, t);
    }
  }

  /** The split that uses up `maxsplit` closes the token and keeps the rest verbatim. */
  lemma ScanDelimLast(s: string, delim: char, escape: char, unescape: bool,
                      maxsplit: int, i: nat, current: string,
                      ret: seq<string>, count: nat)
    requires i < |s| && s[i] == delim && s[i] != escape
    requires maxsplit > 0 && count < maxsplit && count + 1 >= maxsplit
    ensures Scan(s, delim, escape, unescape, maxsplit, i, current, ret, count)
         == ret + PrependToFirst(current, ["", s[i + 1..]])
  {
    PrependToEmptyFirst(current, [s[i + 1..]]);
  }

  /** A split below the limit closes the token and scans on with an empty one. */
  lemma ScanDelimNext(s: string, delim: char, escape: char, unescape: bool,
                      maxsplit: int, i: nat, current: string,
                      ret: seq<string>, count: nat, t: seq<string>)
    requires i < |s| && s[i] == delim && s[i] != escape
    requires !(maxsplit > 0 && count + 1 >= maxsplit)
    requires |t| > 0
    requires Scan(s, delim, escape, unescape, maxsplit, i + 1, [], ret + [current], count + 1)
          == (ret + [current]) + PrependToFirst([], t)
    ensures Scan(s, delim, escape, unescape, maxsplit, i, current, ret, count)
         == ret + PrependToFirst(current, [""] + t)
  {
    PrependNothing(t);
    PrependToEmptyFirst(current, t);
    assert (ret + [current]) + t == ret + ([current] + t);
  }

  lemma {:induction false} ScanPlain(s: string, delim: char, escape: char, unescape: bool,
                                     maxsplit: int, i: nat, current: string,
                                     ret: seq<string>, count: nat)
    requires i < |s| && s[i] != delim && s[i] != escape
    requires maxsplit != 0 && (maxsplit > 0 ==> count < maxsplit)
    ensures Scan(s, delim, escape, unescape, maxsplit, i, current, ret, count)
         == ret + PrependToFirst(current, Tokens(s[i..], delim, escape, unescape, Remaining(maxsplit, count)))
    decreases |s| - i, 0
  {
    ScanMatchesTokens(s, delim, escape, unescape, maxsplit, i + 1, current + [s[i]], ret, count);
    assert s[i..][0] == s[i] && s[i..][1..] == s[i + 1..];
    PrependToFirstTwice(current, [s[i]], Tokens(s[i + 1..], delim, escape, unescape, Remaining(maxsplit, count)));
  }

  /** The token count is bounded by the delimiters present and by the split limit. */
  lemma {:induction false} TokensBounds(s: string, delim: char, escape: char, unescape: bool, limit: int)
    ensures |Tokens(s, delim, escape, unescape, limit)| <= CountChar(s, delim) + 1
    ensures limit > 0 ==> |Tokens(s, delim, escape, unescape, limit)| <= limit + 1
    decreases |s|
  {
    if |s| == 0 {
    } else if s[0] == escape {
      if |s| > 1 {
        TokensBounds(s[2..], delim, escape, unescape, limit);
        assert s[1..][1..] == s[2..];
      }
    } else if s[0] == delim {
      if limit != 1 {
        TokensBounds(s[1..], delim, escape, unescape, if limit > 0 then limit - 1 else limit);
      }
    } else {
      TokensBounds(s[1..], delim, escape, unescape, limit);
    }
  }

  /** utilities.py `split_unescape(s, delim, escape, unescape, maxsplit)`; `maxsplit == 0`
      returns the input whole, a negative `maxsplit` splits without limit. */
  function SplitUnescape(s: string, delim: char, escape: char, unescape: bool, maxsplit: int): (r: seq<string>)
    ensures maxsplit == 0 ==> r == [s]
    ensures 1 <= |r| <= CountChar(s, delim) + 1
    ensures maxsplit > 0 ==> |r| <= maxsplit + 1
  {
    if maxsplit == 0 then [s]
    else
      ScanMatchesTokens(s, delim, escape, unescape, maxsplit, 0, "", [], 0);
      TokensBounds(s, delim, escape, unescape, maxsplit);
      assert s[0..] == s;
      Scan(s, delim, escape, unescape, maxsplit, 0, "", [], 0)
  }

  /** The scan agrees with the front-to-back token description. */
  lemma SplitUnescapeIsTokens(s: string, delim: char, escape: char, unescape: bool, maxsplit: int)
    requires maxsplit != 0
    ensures SplitUnescape(s, delim, escape, unescape, maxsplit) == Tokens(s, delim, escape, unescape, maxsplit)
  {
    ScanMatchesTokens(s, delim, escape, unescape, maxsplit, 0, "", [], 0);
    assert s[0..] == s;
    PrependNothing(Tokens(s, delim, escape, unescape, maxsplit));
  }

  /** Without escapes and without a limit, joining the tokens with the delimiter gives the
      input back. */
  lemma {:induction false} TokensJoin(s: string, delim: char, escape: char, unescape: bool, limit: int)
    requires escape !in s && limit <= 0
    ensures Join(Tokens(s, delim, escape, unescape, limit), [delim]) == s
    decreases |s|
  {
    if |s| == 0 {
    } else if s[0] == delim {
      TokensJoin(s[1..], delim, escape, unescape, limit);
      var t := Tokens(s[1..], delim, escape, unescape, limit);
      assert ([""] + t)[0] == "" && ([""] + t)[1..] == t;
      assert Join([""] + t, [delim]) == "" + [delim] + Join(t, [delim]);
      assert s == "" + [delim] + s[1..];
    } else {
      TokensJoin(s[1..], delim, escape, unescape, limit);
      JoinPrepend([s[0]], Tokens(s[1..], delim, escape, unescape, limit), [delim]);
      assert s == [s[0]] + s[1..];
    }
  }

  lemma SplitUnescapeJoin(s: string, delim: char, escape: char, unescape: bool, maxsplit: int)
    requires escape !in s && maxsplit < 0
    ensures Join(SplitUnescape(s, delim, escape, unescape, maxsplit), [delim]) == s
  {
    SplitUnescapeIsTokens(s, delim, escape, unescape, maxsplit);
    TokensJoin(s, delim, escape, unescape, maxsplit);
  }

  /** A stretch without escapes and delimiters just extends the first token. */
  lemma {:induction false} TokensPlainPrefix(p: string, rest: string, delim: char, escape: char,
                                             unescape: bool, limit: int)
    requires escape !in p && delim !in p
    ensures Tokens(p + rest, delim, escape, unescape, limit)
         == PrependToFirst(p, Tokens(rest, delim, escape, unescape, limit))
    decreases |p|
  {
    if |p| > 0 {
      TokensPlainPrefix(p[1..], rest, delim, escape, unescape, limit);
      assert (p + rest)[1..] == p[1..] + rest;
      assert p == [p[0]] + p[1..];
      PrependToFirstTwice([p[0]], p[1..], Tokens(rest, delim, escape, unescape, limit));
    } else {
      assert p + rest == rest;
      PrependNothing(Tokens(rest, delim, escape, unescape, limit));
    }
  }

  /** An escaped character, the delimiter included, never splits: it joins the token
      (preceded by the escape when not unescaping). */
  lemma EscapedCharIsLiteral(p: string, x: char, q: string, delim: char, escape: char,
                             unescape: bool, maxsplit: int)
    requires escape !in p && delim !in p && maxsplit != 0
    ensures SplitUnescape(p + [escape, x] + q, delim, escape, unescape, maxsplit)
         == PrependToFirst(p + (if unescape then [x] else [escape, x]),
                           SplitUnescape(q, delim, escape, unescape, maxsplit))
  {
    var s := p + [escape, x] + q;
    var limit := maxsplit;
    SplitUnescapeIsTokens(s, delim, escape, unescape, maxsplit);
    SplitUnescapeIsTokens(q, delim, escape, unescape, maxsplit);
    TokensPlainPrefix(p, [escape, x] + q, delim, escape, unescape, maxsplit);
    assert s == p + ([escape, x] + q);
    assert ([escape, x] + q)[2..] == q;
    var t := Tokens(q, delim, escape, unescape, maxsplit);
    var e := if unescape then [x] else [escape, x];
    assert (if unescape then [] else [escape]) + [x] == e;
    assert Tokens([escape, x] + q, delim, escape, unescape, limit) == PrependToFirst(e, t);
    PrependToFirstTwice(p, e, t);
  }

  /** An unescaped delimiter closes the token; when it is the last split allowed, the rest
      of the input becomes the final token verbatim. */
  lemma UnescapedDelimiterSplits(p: string, q: string, delim: char, escape: char,
                                 unescape: bool, maxsplit: int)
    requires escape !in p && delim !in p && delim != escape && maxsplit != 0
    ensures SplitUnescape(p + [delim] + q, delim, escape, unescape, maxsplit)
         == if maxsplit == 1 then [p, q]
            else [p] + SplitUnescape(q, delim, escape, unescape, if maxsplit > 0 then maxsplit - 1 else maxsplit)
  {
    var s := p + [delim] + q;
    SplitUnescapeIsTokens(s, delim, escape, unescape, maxsplit);
    TokensPlainPrefix(p, [delim] + q, delim, escape, unescape, maxsplit);
    assert s == p + ([delim] + q);
    assert ([delim] + q)[1..] == q;
    if maxsplit == 1 {
      PrependToEmptyFirst(p, [q]);
    } else {
      var next := if maxsplit > 0 then maxsplit - 1 else maxsplit;
      SplitUnescapeIsTokens(q, delim, escape, unescape, next);
      PrependToEmptyFirst(p, Tokens(q, delim, escape, unescape, next));
    }
  }

  /** `x` is the input after some delimiter, verbatim. */
  predicate TailAfterDelim(s: string, delim: char, x: string) {
    exists j | 1 <= j <= |s| :: s[j - 1] == delim && x == s[j..]
  }

  /** A tail after a delimiter of `s[k..]` is one of `s`. */
  lemma TailAfterDelimShift(s: string, k: nat, delim: char, x: string)
    requires k <= |s| && TailAfterDelim(s[k..], delim, x)
    ensures TailAfterDelim(s, delim, x)
  {
    var j :| 1 <= j <= |s[k..]| && s[k..][j - 1] == delim && x == s[k..][j..];
    assert s[k + j - 1] == delim && s[k..][j..] == s[k + j..];
  }

  /** With a limit of `k` splits that is reached, the last token is the input after some
      delimiter, verbatim. */
  lemma {:induction false} TokensRemainder(s: string, delim: char, escape: char, unescape: bool, limit: int)
    requires limit > 0 && |Tokens(s, delim, escape, unescape, limit)| == limit + 1
    ensures TailAfterDelim(s, delim, Tokens(s, delim, escape, unescape, limit)[limit])
    decreases |s|, 1
  {
    if s[0] == escape {
      TokensRemainderEscape(s, delim, escape, unescape, limit);
    } else if s[0] == delim {
      TokensRemainderDelim(s, delim, escape, unescape, limit);
    } else {
      TokensRemainderPlain(s, delim, escape, unescape, limit);
    }
  }

  lemma {:induction false} TokensRemainderEscape(s: string, delim: char, escape: char, unescape: bool, limit: int)
    requires |s| > 0 && s[0] == escape
    requires limit > 0 && |Tokens(s, delim, escape, unescape, limit)| == limit + 1
    ensures TailAfterDelim(s, delim, Tokens(s, delim, escape, unescape, limit)[limit])
    decreases |s|, 0
  {
    var t := Tokens(s[2..], delim, escape, unescape, limit);
    assert Tokens(s, delim, escape, unescape, limit)
        == PrependToFirst((if unescape then [] else [escape]) + [s[1]], t);
    TokensRemainder(s[2..], delim, escape, unescape, limit);
    TailAfterDelimShift(s, 2, delim, t[limit]);
  }

  lemma {:induction false} TokensRemainderDelim(s: string, delim: char, escape: char, unescape: bool, limit: int)
    requires |s| > 0 && s[0] == delim && s[0] != escape
    requires limit > 0 && |Tokens(s, delim, escape, unescape, limit)| == limit + 1
    ensures TailAfterDelim(s, delim, Tokens(s, delim, escape, unescape, limit)[limit])
    decreases |s|, 0
  {
    TokensAtDelim(s, delim, escape, unescape, limit);
    if limit == 1 {
      assert s[0] == delim && Tokens(s, delim, escape, unescape, limit)[1] == s[1..];
    } else {
      var t := Tokens(s[1..], delim, escape, unescape, limit - 1);
      TokensRemainder(s[1..], delim, escape, unescape, limit - 1);
      TailAfterDelimShift(s, 1, delim, t[limit - 1]);
    }
  }

  lemma {:induction false} TokensRemainderPlain(s: string, delim: char, escape: char, unescape: bool, limit: int)
    requires |s| > 0 && s[0] != delim && s[0] != escape
    requires limit > 0 && |Tokens(s, delim, escape, unescape, limit)| == limit + 1
    ensures TailAfterDelim(s, delim, Tokens(s, delim, escape, unescape, limit)[limit])
    decreases |s|, 0
  {
    var t := Tokens(s[1..], delim, escape, unescape, limit);
    assert Tokens(s, delim, escape, unescape, limit) == PrependToFirst([s[0]], t);
    TokensRemainder(s[1..], delim, escape, unescape, limit);
    TailAfterDelimShift(s, 1, delim, t[limit]);
  }

  /** With `maxsplit = k > 0` and `k` splits made, the last token is the untouched rest of
      the input after some delimiter (`UnescapedDelimiterSplits` says which one). */
  lemma SplitUnescapeRemainder(s: string, delim: char, escape: char, unescape: bool, maxsplit: int)
    requires maxsplit > 0 && |SplitUnescape(s, delim, escape, unescape, maxsplit)| == maxsplit + 1
    ensures TailAfterDelim(s, delim, SplitUnescape(s, delim, escape, unescape, maxsplit)[maxsplit])
  {
    SplitUnescapeIsTokens(s, delim, escape, unescape, maxsplit);
    TokensRemainder(s, delim, escape, unescape, maxsplit);
  }

  /** The number of escapes that end `t`. An escape appended to `t` is lone (not the
      second half of an escaped pair) exactly when this number is even. */
  function EscapeRun(t: string, escape: char): (n: nat)
    ensures n <= |t|
    decreases |t|
  {
    if |t| == 0 || t[|t| - 1] != escape then 0 else 1 + EscapeRun(t[..|t| - 1], escape)
  }

  /** Dropping a prefix of `t` shortens its run of escapes only where the run reaches into
      the prefix. */
  lemma {:induction false} EscapeRunSuffix(t: string, k: nat, escape: char)
    requires k <= |t|
    ensures EscapeRun(t[k..], escape)
         == if EscapeRun(t, escape) <= |t| - k then EscapeRun(t, escape) else |t| - k
    decreases |t|
  {
    if |t| > k && t[|t| - 1] == escape {
      var u := t[..|t| - 1];
      EscapeRunSuffix(u, k, escape);
      assert t[k..][..|t[k..]| - 1] == u[k..];
    }
  }

  /** A run of escapes covering all of a non-empty `t` starts with an escape. */
  lemma {:induction false} EscapeRunWhole(t: string, escape: char)
    requires |t| > 0 && EscapeRun(t, escape) == |t|
    ensures t[0] == escape
    decreases |t|
  {
    if |t| > 1 {
      var u := t[..|t| - 1];
      EscapeRunWhole(u, escape);
      assert u[0] == t[0];
    }
  }

  /** Escape-free text ends in no escape. */
  lemma EscapeRunAbsent(t: string, escape: char)
    requires escape !in t
    ensures EscapeRun(t, escape) == 0
  {
    if |t| > 0 {
      assert t[|t| - 1] in t;
    }
  }

  /** After a first character that is no escape, the rest ends in the same run. */
  lemma EscapeRunAfterPlain(t: string, escape: char)
    requires |t| > 0 && t[0] != escape
    ensures EscapeRun(t[1..], escape) == EscapeRun(t, escape)
  {
    EscapeRunSuffix(t, 1, escape);
    if EscapeRun(t, escape) == |t| {
      EscapeRunWhole(t, escape);
    }
  }

  /** After an escaped pair at the front, the rest ends in a run of the same parity. */
  lemma EscapeRunAfterPair(t: string, escape: char)
    requires |t| > 1 && t[0] == escape
    ensures EscapeRun(t[2..], escape) % 2 == EscapeRun(t, escape) % 2
  {
    EscapeRunSuffix(t, 2, escape);
    if EscapeRun(t, escape) == |t| - 1 {
      EscapeRunSuffix(t, 1, escape);
      EscapeRunWhole(t[1..], escape);
      EscapeRunRestart(t, escape);
    }
  }

  /** A run of `|t| - 1` escapes stops at the first character, which is then no escape. */
  lemma EscapeRunRestart(t: string, escape: char)
    requires |t| > 0 && EscapeRun(t, escape) == |t| - 1
    ensures t[0] != escape
    decreases |t|
  {
    if |t| > 1 {
      var u := t[..|t| - 1];
      EscapeRunRestart(u, escape);
      assert u[0] == t[0];
    }
  }

  /** A lone escape at the end (one after an even run of escapes) joins the end of the
      last token: it neither escapes anything nor is swallowed. */
  lemma {:induction false} TokensTrailingEscape(t: string, delim: char, escape: char, unescape: bool, limit: int)
    requires EscapeRun(t, escape) % 2 == 0
    ensures Tokens(t + [escape], delim, escape, unescape, limit)
         == AppendToLast(Tokens(t, delim, escape, unescape, limit), [escape])
    decreases |t|
  {
    var s := t + [escape];
    if |t| == 0 {
      assert s == [escape];
    } else if t[0] == escape {
      if |t| == 1 {
        assert false;
      }
      assert s[0] == escape && s[1] == t[1] && s[2..] == t[2..] + [escape];
      EscapeRunAfterPair(t, escape);
      var x := (if unescape then [] else [escape]) + [t[1]];
      TokensTrailingEscape(t[2..], delim, escape, unescape, limit);
      PrependAppendCommute(x, Tokens(t[2..], delim, escape, unescape, limit), [escape]);
    } else if t[0] == delim {
      assert s[0] == delim && s[1..] == t[1..] + [escape];
      if limit != 1 {
        var next := if limit > 0 then limit - 1 else limit;
        EscapeRunAfterPlain(t, escape);
        TokensTrailingEscape(t[1..], delim, escape, unescape, next);
        ConsAppendCommute("", Tokens(t[1..], delim, escape, unescape, next), [escape]);
      }
    } else {
      assert s[0] == t[0] && s[1..] == t[1..] + [escape];
      EscapeRunAfterPlain(t, escape);
      TokensTrailingEscape(t[1..], delim, escape, unescape, limit);
      PrependAppendCommute([t[0]], Tokens(t[1..], delim, escape, unescape, limit), [escape]);
    }
  }

  /** A lone trailing escape is kept exactly once, at the end of the last token, whether
      or not escapes are being removed, and whatever the limit. */
  lemma SplitUnescapeTrailingEscape(t: string, delim: char, escape: char, unescape: bool, maxsplit: int)
    requires EscapeRun(t, escape) % 2 == 0 && maxsplit != 0
    ensures var r := SplitUnescape(t, delim, escape, unescape, maxsplit);
            SplitUnescape(t + [escape], delim, escape, unescape, maxsplit) == AppendToLast(r, [escape])
  {
    SplitUnescapeIsTokens(t, delim, escape, unescape, maxsplit);
    SplitUnescapeIsTokens(t + [escape], delim, escape, unescape, maxsplit);
    TokensTrailingEscape(t, delim, escape, unescape, maxsplit);
  }

  /** Text without escapes and delimiters is one token. */
  lemma SplitUnescapePlain(p: string, delim: char, escape: char, unescape: bool, maxsplit: int)
    requires escape !in p && delim !in p
    ensures SplitUnescape(p, delim, escape, unescape, maxsplit) == [p]
  {
    if maxsplit != 0 {
      SplitUnescapeIsTokens(p, delim, escape, unescape, maxsplit);
      TokensPlainPrefix(p, "", delim, escape, unescape, maxsplit);
      assert p + "" == p;
    }
  }

  /** Escape- and delimiter-free text followed by a lone escape is one token, escape kept. */
  lemma PlainThenTrailingEscape(p: string, delim: char, escape: char, unescape: bool, maxsplit: int)
    requires escape !in p && delim !in p && maxsplit != 0
    ensures SplitUnescape(p + [escape], delim, escape, unescape, maxsplit) == [p + [escape]]
  {
    SplitUnescapePlain(p, delim, escape, unescape, maxsplit);
    EscapeRunAbsent(p, escape);
    SplitUnescapeTrailingEscape(p, delim, escape, unescape, maxsplit);
  }

  /** Two plain tokens around one delimiter split apart under any limit. */
  lemma TwoPlainTokens(a: string, b: string, delim: char, escape: char, unescape: bool, maxsplit: int)
    requires escape !in a && delim !in a && escape !in b && delim !in b
    requires delim != escape && maxsplit != 0
    ensures SplitUnescape(a + [delim] + b, delim, escape, unescape, maxsplit) == [a, b]
  {
    SplitUnescapePlain(b, delim, escape, unescape, if maxsplit > 0 then maxsplit - 1 else maxsplit);
    UnescapedDelimiterSplits(a, b, delim, escape, unescape, maxsplit);
  }

  /** Three plain tokens without a limit split into three. */
  lemma ThreePlainTokens(a: string, b: string, c: string, delim: char, escape: char, unescape: bool)
    requires escape !in a && delim !in a && escape !in b && delim !in b && escape !in c && delim !in c
    requires delim != escape
    ensures SplitUnescape(a + [delim] + b + [delim] + c, delim, escape, unescape, -1) == [a, b, c]
  {
    TwoPlainTokens(b, c, delim, escape, unescape, -1);
    assert a + [delim] + b + [delim] + c == a + [delim] + (b + [delim] + c);
    UnescapedDelimiterSplits(a, b + [delim] + c, delim, escape, unescape, -1);
  }

  /** With a limit of one split the rest after the first delimiter is kept whole. */
  lemma FirstSplitOnly(a: string, rest: string, delim: char, escape: char, unescape: bool)
    requires escape !in a && delim !in a && delim != escape
    ensures SplitUnescape(a + [delim] + rest, delim, escape, unescape, 1) == [a, rest]
  {
    UnescapedDelimiterSplits(a, rest, delim, escape, unescape, 1);
  }

  /** An escaped delimiter between plain text stays in the single token, unescaped. */
  lemma EscapedDelimiterJoins(a: string, b: string, delim: char, escape: char, maxsplit: int)
    requires escape !in a && delim !in a && escape !in b && delim !in b && maxsplit != 0
    ensures SplitUnescape(a + [escape, delim] + b, delim, escape, true, maxsplit) == [a + [delim] + b]
  {
    SplitUnescapePlain(b, delim, escape, true, maxsplit);
    EscapedCharIsLiteral(a, delim, b, delim, escape, true, maxsplit);
    assert [b][1..] == [];
  }

  /** An escaped escape before a delimiter is one literal escape (two when not unescaping),
      and the delimiter still splits. */
  lemma EscapedEscapeThenDelimiter(a: string, b: string, delim: char, escape: char, unescape: bool)
    requires escape !in a && delim !in a && escape !in b && delim !in b && delim != escape
    ensures SplitUnescape(a + [escape, escape] + ([delim] + b), delim, escape, unescape, -1)
         == [a + (if unescape then [escape] else [escape, escape]), b]
  {
    TwoPlainTokens([], b, delim, escape, unescape, -1);
    assert [] + [delim] + b == [delim] + b;
    EscapedCharIsLiteral(a, escape, [delim] + b, delim, escape, unescape, -1);
    var x := a + (if unescape then [escape] else [escape, escape]);
    assert x + [] == x;
    assert ["", b][1..] == [b];
  }

  /** An escaped delimiter inside the first token does not count towards the limit. */
  lemma EscapedThenFirstSplit(a: string, b: string, rest: string, delim: char, escape: char)
    requires escape !in a && delim !in a && escape !in b && delim !in b && delim != escape
    ensures SplitUnescape(a + [escape, delim] + (b + [delim] + rest), delim, escape, true, 1)
         == [a + [delim] + b, rest]
  {
    FirstSplitOnly(b, rest, delim, escape, true);
    EscapedCharIsLiteral(a, delim, b + [delim] + rest, delim, escape, true, 1);
    assert [b, rest][1..] == [rest];
  }

  /** The doctests of `split_unescape` (utilities.py lines 25-34), one lemma each. */
  lemma DoctestPlainSplit()
    ensures SplitUnescape("foo,bar", ',', '\\', true, -1) == ["foo", "bar"]
  {
    TwoPlainTokens("foo", "bar", ',', '\\', true, -1);
    assert "foo" + [','] + "bar" == "foo,bar";
  }

  lemma DoctestEscapedDelimiter()
    ensures SplitUnescape("foo$,bar", ',', '$', true, -1) == ["foo,bar"]
  {
    EscapedDelimiterJoins("foo", "bar", ',', '$', -1);
    assert "foo" + ['$', ','] + "bar" == "foo$,bar";
    assert "foo" + [','] + "bar" == "foo,bar";
  }

  lemma DoctestEscapedEscape(unescape: bool)
    ensures SplitUnescape("foo$$,bar", ',', '$', unescape, -1)
         == if unescape then ["foo$", "bar"] else ["foo$$", "bar"]
  {
    EscapedEscapeThenDelimiter("foo", "bar", ',', '$', unescape);
    assert "foo" + ['$', '$'] + ([','] + "bar") == "foo$$,bar";
    assert "foo" + ['$'] == "foo$";
    assert "foo" + ['$', '$'] == "foo$$";
  }

  lemma DoctestTrailingEscape(unescape: bool)
    ensures SplitUnescape("foo$", ',', '$', unescape, -1) == ["foo$"]
  {
    PlainThenTrailingEscape("foo", ',', '$', unescape, -1);
    assert "foo" + ['$'] == "foo$";
  }

  /** A lone escape after an escaped delimiter stays at the end of the one token. */
  lemma EscapedDelimiterThenTrailingEscape(a: string, b: string, delim: char, escape: char, maxsplit: int)
    requires escape !in a && delim !in a && escape !in b && delim !in b && maxsplit != 0
    ensures SplitUnescape(a + [escape, delim] + b + [escape], delim, escape, true, maxsplit)
         == [a + [delim] + b + [escape]]
  {
    EscapedDelimiterJoins(a, b, delim, escape, maxsplit);
    var t := a + [escape, delim] + b;
    if |b| > 0 {
      assert t[|t| - 1] == b[|b| - 1];
      assert b[|b| - 1] in b;
      assert EscapeRun(t, escape) == 0;
    } else if delim == escape {
      assert t[..|t| - 1] == a + [escape];
      assert t[..|t| - 1][..|t| - 2] == a;
      EscapeRunAbsent(a, escape);
      assert EscapeRun(t, escape) == 2;
    } else {
      assert EscapeRun(t, escape) == 0;
    }
    SplitUnescapeTrailingEscape(t, delim, escape, true, maxsplit);
  }

  /** `'a$,b$'` with unescaping is the one token `a,b$`. */
  lemma DoctestLikeEscapedThenTrailing()
    ensures SplitUnescape("a$,b$", ',', '$', true, -1) == ["a,b$"]
  {
    EscapedDelimiterThenTrailingEscape("a", "b", ',', '$', -1);
    assert "a" + ['$', ','] + "b" + ['$'] == "a$,b$";
    assert "a" + [','] + "b" + ['$'] == "a,b$";
  }

  /** Examples of the object-listing use: space-separated, a backslash escaping a space. */
  lemma SpaceSplitUnlimited()
    ensures SplitUnescape("foo bar baz", ' ', '\\', true, -1) == ["foo", "bar", "baz"]
  {
    ThreePlainTokens("foo", "bar", "baz", ' ', '\\', true);
    assert "foo" + [' '] + "bar" + [' '] + "baz" == "foo bar baz";
  }

  lemma SpaceSplitOnce()
    ensures SplitUnescape("foo bar baz", ' ', '\\', true, 1) == ["foo", "bar baz"]
  {
    FirstSplitOnly("foo", "bar baz", ' ', '\\', true);
    assert "foo" + [' '] + "bar baz" == "foo bar baz";
  }

  lemma SpaceSplitOnceEscaped()
    ensures SplitUnescape("foo\\ bar baz", ' ', '\\', true, 1) == ["foo bar", "baz"]
  {
    EscapedThenFirstSplit("foo", "bar", "baz", ' ', '\\');
    assert "foo" + ['\\', ' '] + ("bar" + [' '] + "baz") == "foo\\ bar baz";
    assert "foo" + [' '] + "bar" == "foo bar";
  }

  // ---------------------------------------------------------------------------
  // getNameVersion
  // ---------------------------------------------------------------------------

  /** The default suffix marker of archive names, and the name/version separator. */
  const ExternalsMarker := "-externals"
  const VersionMarker := "-v"

  /** Python's `x.strip('-').strip()`, applied to both halves of a parsed file name. */
  function Tidy(x: string): (r: string)
    ensures Contains(x, r)
    ensures |r| > 0 ==> r[0] !in Whitespace && r[|r| - 1] !in Whitespace
  {
    var d := Strip(x, {'-'});
    var r := Strip(d, Whitespace);
    ContainsTransitive(x, d, r);
    r
  }

  /** What `Tidy` drops from either end of its input is dashes and whitespace only. */
  lemma TidyTrimmed(x: string)
    ensures TrimmedOf(x, Tidy(x), {'-'} + Whitespace)
  {
    TrimmedOfTwice(x, Strip(x, {'-'}), Tidy(x), {'-'}, Whitespace);
  }

  /** The file name cut at the first `suffix` and then at the first `(`. */
  function Stem(filename: string, suffix: string): (t: string)
    requires |suffix| > 0
    ensures t <= filename
    ensures !Contains(t, suffix) && '(' !in t
  {
    var a := BeforeFirst(filename, suffix);
    var t := BeforeFirst(a, "(");
    PrefixContained(t, a);
    ContainsMonotone(a, t, suffix);
    ContainsSingle(t, '(');
    t
  }

  /** The stem is the longest prefix in which neither the suffix nor `(` begins: it stops
      where the earlier of the two first begins, or runs to the end when neither occurs. */
  lemma StemCut(filename: string, suffix: string)
    requires |suffix| > 0
    ensures var t := Stem(filename, suffix);
            && (forall k | 0 <= k < |t| :: !ContainsAt(filename, suffix, k) && filename[k] != '(')
            && (t == filename || ContainsAt(filename, suffix, |t|) || filename[|t|] == '(')
  {
    var a := BeforeFirst(filename, suffix);
    var t := BeforeFirst(a, "(");
    assert t == Stem(filename, suffix);
    assert forall k | 0 <= k < |t| :: filename[k] == t[k];
    if t == a && a != filename {
      assert filename[|a|..|a| + |suffix|] == suffix;
    } else if t != a {
      assert a[|t|] == '(';
    }
  }

  /** The name and version read off a stem: split at every `-v`; the version is the tidied
      last part, the name the tidied rest rejoined with `-v` (or the whole stem, with an
      empty version, when there is no `-v`). */
  function NameVersionOfStem(stem: string): (r: (string, string))
    ensures Contains(stem, r.0) && Contains(stem, r.1)
    ensures !Contains(r.1, VersionMarker)
    ensures |r.0| > 0 ==> r.0[0] !in Whitespace && r.0[|r.0| - 1] !in Whitespace
    ensures |r.1| > 0 ==> r.1[0] !in Whitespace && r.1[|r.1| - 1] !in Whitespace
  {
    var parts := Split(stem, VersionMarker);
    StemParts(stem);
    if |parts| > 1 then
      var pkg := Join(parts[..|parts| - 1], VersionMarker);
      var last := parts[|parts| - 1];
      var name := Tidy(pkg);
      var ver := Tidy(last);
      ContainsTransitive(stem, pkg, name);
      ContainsTransitive(stem, last, ver);
      ContainsMonotone(last, ver, VersionMarker);
      (name, ver)
    else
      (Tidy(parts[0]), "")
  }

  /** The pieces `NameVersionOfStem` tidies: the parts before the last `-v` rejoined, and the
      last part, both occurring in the stem; a stem without `-v` splits into itself. */
  lemma StemParts(stem: string)
    ensures var parts := Split(stem, VersionMarker);
            && Contains(stem, "")
            && (|parts| == 1 ==> parts[0] == stem)
            && (|parts| > 1 ==>
                  && Contains(stem, Join(parts[..|parts| - 1], VersionMarker))
                  && Contains(stem, parts[|parts| - 1])
                  && !Contains(parts[|parts| - 1], VersionMarker))
  {
    var parts := Split(stem, VersionMarker);
    SplitFacts(stem, VersionMarker);
    assert ContainsAt(stem, "", 0);
    if |parts| > 1 {
      var n := |parts|;
      JoinLast(parts, VersionMarker);
      var pkg := Join(parts[..n - 1], VersionMarker);
      var last := parts[n - 1];
      assert stem == pkg + VersionMarker + last;
      assert ContainsAt(stem, pkg, 0);
      assert ContainsAt(stem, last, |pkg| + 2);
    }
  }

  /** utilities.py `getNameVersion(filename, suffix)`: the package name and version encoded
      in an archive name (the version is empty when there is no `-v`). Python rejects an
      empty `suffix` as a separator. */
  function GetNameVersion(filename: string, suffix: string): (r: (string, string))
    requires |suffix| > 0
    ensures Contains(filename, r.0) && Contains(filename, r.1)
    ensures !Contains(r.0, suffix) && !Contains(r.1, suffix)
    ensures '(' !in r.0 && '(' !in r.1
    ensures !Contains(r.1, VersionMarker)
    ensures |r.0| > 0 ==> r.0[0] !in Whitespace && r.0[|r.0| - 1] !in Whitespace
    ensures |r.1| > 0 ==> r.1[0] !in Whitespace && r.1[|r.1| - 1] !in Whitespace
  {
    var stem := Stem(filename, suffix);
    var r := NameVersionOfStem(stem);
    PrefixContained(stem, filename);
    ContainsSingle(stem, '(');
    ContainsTransitive(filename, stem, r.0);
    ContainsTransitive(filename, stem, r.1);
    ContainsMonotone(stem, r.0, suffix);
    ContainsMonotone(stem, r.1, suffix);
    ContainsMonotone(stem, r.0, "(");
    ContainsMonotone(stem, r.1, "(");
    ContainsSingle(r.0, '(');
    ContainsSingle(r.1, '(');
    r
  }

  /** Without `-v` the version is empty and the name is the tidied stem; otherwise the
      version comes from after the last `-v` and the name from everything before it. */
  lemma NameVersionSplitsAtLastMarker(filename: string, suffix: string)
    requires |suffix| > 0
    ensures var stem := Stem(filename, suffix);
            var r := GetNameVersion(filename, suffix);
            if !Contains(stem, VersionMarker) then r == (Tidy(stem), "")
            else exists i | 0 <= i <= |stem| - 2 ::
                   && ContainsAt(stem, VersionMarker, i)
                   && !Contains(stem[i + 2..], VersionMarker)
                   && r == (Tidy(stem[..i]), Tidy(stem[i + 2..]))
  {
    var stem := Stem(filename, suffix);
    var parts := Split(stem, VersionMarker);
    SplitFacts(stem, VersionMarker);
    SplitSingle(stem, VersionMarker);
    if |parts| > 1 {
      var n := |parts|;
      JoinLast(parts, VersionMarker);
      var pkg := Join(parts[..n - 1], VersionMarker);
      var last := parts[n - 1];
      assert stem == pkg + VersionMarker + last;
      var i := |pkg|;
      assert stem[..i] == pkg && stem[i + 2..] == last;
      assert ContainsAt(stem, VersionMarker, i);
    }
  }

  /** No printable ASCII character is whitespace. */
  lemma PrintableNotSpace(c: char)
    requires '!' <= c <= '~'
    ensures c !in Whitespace
  {
  }

  /** A string that starts and ends with printable characters other than `-` is tidy. */
  lemma TidyKeeps(x: string)
    requires |x| > 0 && x[0] != '-' && x[|x| - 1] != '-'
    requires '!' <= x[0] <= '~' && '!' <= x[|x| - 1] <= '~'
    ensures Tidy(x) == x
  {
    PrintableNotSpace(x[0]);
    PrintableNotSpace(x[|x| - 1]);
    StripUnchanged(x, {'-'});
    StripUnchanged(x, Whitespace);
  }

  lemma TidyDropsDash(x: string)
    requires |x| > 0 && x[0] != '-' && x[|x| - 1] != '-'
    requires '!' <= x[0] <= '~' && '!' <= x[|x| - 1] <= '~'
    ensures Tidy(x + "-") == x
  {
    PrintableNotSpace(x[0]);
    PrintableNotSpace(x[|x| - 1]);
    StripTrailing(x, '-', {'-'});
    StripUnchanged(x, Whitespace);
  }

  /** The stem of a name cut at a `(` before the suffix. */
  lemma StemAtParen(r: string, t: string, rest: string, suffix: string, p: nat)
    requires p < |suffix| && suffix[p] !in r && suffix[p] !in t && suffix[p] != '('
    requires suffix[p] !in suffix[..p] && '(' !in r
    ensures Stem(r + "(" + t + suffix + rest, suffix) == r
  {
    assert suffix[p] !in r + "(" + t;
    assert r + "(" + t + suffix + rest == (r + "(" + t) + suffix + rest;
    BeforeFirstAt(r + "(" + t, suffix, rest, p);
    BeforeFirstAt(r, "(", t, 0);
  }

  /** The stem of a name without `(` before the suffix. */
  lemma StemAtSuffix(r: string, rest: string, suffix: string, p: nat)
    requires p < |suffix| && suffix[p] !in r && suffix[p] !in suffix[..p] && '(' !in r
    ensures Stem(r + suffix + rest, suffix) == r
  {
    BeforeFirstAt(r, suffix, rest, p);
    BeforeFirstNone(r, "(", '(');
  }

  /** A name without the suffix and without `(` is its own stem. */
  lemma StemWhole(filename: string, suffix: string, c: char)
    requires |suffix| > 0 && c in suffix && c !in filename && '(' !in filename
    ensures Stem(filename, suffix) == filename
  {
    BeforeFirstNone(filename, suffix, c);
    BeforeFirstNone(filename, "(", '(');
  }

  /** Starts and ends with a printable character other than `-`: left alone by `Tidy`. */
  predicate Clean(x: string) {
    && |x| > 0
    && x[0] != '-' && x[|x| - 1] != '-'
    && '!' <= x[0] <= '~' && '!' <= x[|x| - 1] <= '~'
  }

  /** A name whose stem holds exactly one `-v` parses into its two sides, tidied. */
  lemma NameVersionOfTwoParts(filename: string, suffix: string, pkg: string, ver: string)
    requires |suffix| > 0 && Split(Stem(filename, suffix), VersionMarker) == [pkg, ver]
    ensures GetNameVersion(filename, suffix) == (Tidy(pkg), Tidy(ver))
  {
    assert [pkg, ver][..1] == [pkg];
  }

  lemma NameVersionClean(filename: string, suffix: string, pkg: string, ver: string)
    requires |suffix| > 0 && Split(Stem(filename, suffix), VersionMarker) == [pkg, ver]
    requires Clean(pkg) && Clean(ver)
    ensures GetNameVersion(filename, suffix) == (pkg, ver)
  {
    NameVersionOfTwoParts(filename, suffix, pkg, ver);
    TidyKeeps(pkg);
    TidyKeeps(ver);
  }

  /** The common shape `<name>-v<version>-...`: the dash before the suffix is dropped. */
  lemma NameVersionDashed(filename: string, suffix: string, pkg: string, ver: string)
    requires |suffix| > 0 && Split(Stem(filename, suffix), VersionMarker) == [pkg, ver + "-"]
    requires Clean(pkg) && Clean(ver)
    ensures GetNameVersion(filename, suffix) == (pkg, ver)
  {
    NameVersionOfTwoParts(filename, suffix, pkg, ver + "-");
    TidyKeeps(pkg);
    TidyDropsDash(ver);
  }

  lemma NameVersionUnversioned(filename: string, suffix: string)
    requires |suffix| > 0 && Split(Stem(filename, suffix), VersionMarker) == [Stem(filename, suffix)]
    requires Clean(Stem(filename, suffix))
    ensures GetNameVersion(filename, suffix) == (Stem(filename, suffix), "")
  {
    TidyKeeps(Stem(filename, suffix));
  }
}
