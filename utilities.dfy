/** The pure string handling of utilities.py: the file name a
    Content-Disposition header carries (`get_filename_from_cd`), and the
    clean-up and URL test that `readtext` applies to its argument before any
    I/O. */
module Utilities {
  import opened Wrappers

  // ---------------------------------------------------------------------
  // The regular expression filename="([^"]+)"
  // ---------------------------------------------------------------------

  /** The literal text in front of the captured group. */
  const FilenameKey: string := "filename=\""

  /** The length of the run of characters other than `"` that starts at `j`:
      what the greedy `[^"]+` consumes. */
  function QuoteFreeRun(s: string, j: nat): (len: nat)
    requires j <= |s|
    ensures j + len <= |s|
    ensures forall t :: j <= t < j + len ==> s[t] != '"'
    ensures j + len == |s| || s[j + len] == '"'
    decreases |s| - j
  {
    if j == |s| || s[j] == '"' then 0 else 1 + QuoteFreeRun(s, j + 1)
  }

  /** The pattern matches at position `p`: the key, at least one character
      other than `"`, then a closing `"`. Backtracking cannot help a failed
      greedy run, since every shorter run ends before a character that is not
      `"`. */
  predicate MatchesAt(s: string, p: nat)
  {
    p + |FilenameKey| <= |s| && s[p..p + |FilenameKey|] == FilenameKey &&
    var len := QuoteFreeRun(s, p + |FilenameKey|);
    len > 0 && p + |FilenameKey| + len < |s|
  }

  /** The leftmost match at or after `p`: the one `re.findall` lists first. */
  function FirstMatchFrom(s: string, p: nat): (r: Option<nat>)
    requires p <= |s|
    ensures r.Some? ==> p <= r.value < |s| && MatchesAt(s, r.value)
    ensures r.Some? ==> forall q :: p <= q < r.value ==> !MatchesAt(s, q)
    ensures r.None? <==> forall q :: p <= q < |s| ==> !MatchesAt(s, q)
    decreases |s| - p
  {
    if p == |s| then None
    else if MatchesAt(s, p) then Some(p)
    else FirstMatchFrom(s, p + 1)
  }

  /** The group the pattern captures at a match. */
  function CapturedAt(s: string, p: nat): (v: string)
    requires MatchesAt(s, p)
    ensures |v| > 0 && '"' !in v
    ensures p + |FilenameKey| + |v| < |s|
    ensures s[p + |FilenameKey|..p + |FilenameKey| + |v|] == v
    ensures s[p + |FilenameKey| + |v|] == '"'
  {
    var start := p + |FilenameKey|;
    var v := s[start..start + QuoteFreeRun(s, start)];
    assert forall t :: 0 <= t < |v| ==> v[t] == s[start + t];
    v
  }

  // ---------------------------------------------------------------------
  // The RFC 5987 charset prefix
  // ---------------------------------------------------------------------

  /** `str.lower` on one character, for the characters it can turn into one
      of `utf-8'`. */
  function AsciiLower(c: char): char
  {
    if 'A' <= c <= 'Z' then (c as int + 32) as char else c
  }

  /** `s.lower().startswith(prefix)` for a lower-case ASCII `prefix`. */
  predicate StartsWithIgnoringCase(s: string, prefix: string)
  {
    |prefix| <= |s| && forall t :: 0 <= t < |prefix| ==> AsciiLower(s[t]) == prefix[t]
  }

  /** The test `fname.lower().startswith(("utf-8''", "utf-8'"))`: its first
      alternative is subsumed by its second. */
  function HasCharsetPrefix(v: string): (r: bool)
    ensures r <==> StartsWithIgnoringCase(v, "utf-8'")
  {
    StartsWithIgnoringCase(v, "utf-8''") || StartsWithIgnoringCase(v, "utf-8'")
  }

  /** `v.split("'")[-1]`: the text after the last apostrophe, or all of `v`
      when it has none. */
  function AfterLastApostrophe(v: string): (r: string)
    ensures |r| <= |v|
  {
    if v == [] then []
    else if v[|v| - 1] == '\'' then []
    else AfterLastApostrophe(v[..|v| - 1]) + [v[|v| - 1]]
  }

  /** The text after the last apostrophe is an apostrophe-free suffix, and
      either the whole value or preceded by an apostrophe. */
  lemma {:induction false} AfterLastApostropheSuffix(v: string)
    ensures var r := AfterLastApostrophe(v);
      |r| <= |v| && r == v[|v| - |r|..] &&
      (forall t :: 0 <= t < |r| ==> r[t] != '\'') &&
      (r == v || v[|v| - |r| - 1] == '\'')
  {
    if v != [] && v[|v| - 1] != '\'' {
      var init, c := v[..|v| - 1], v[|v| - 1];
      AfterLastApostropheSuffix(init);
      var r0 := AfterLastApostrophe(init);
      var r := r0 + [c];
      assert AfterLastApostrophe(v) == r;
      forall t | 0 <= t < |r|
        ensures r[t] != '\''
      {
        if t < |r0| {
          assert r[t] == r0[t];
        }
      }
      assert init[|init| - |r0|..] + [c] == v[|v| - |r|..];
      if r0 != init {
        assert v[|v| - |r| - 1] == init[|init| - |r0| - 1];
      }
    }
  }

  /** Drops an RFC 5987 `charset'language'` prefix, when the value has one. */
  function StripCharset(v: string): string
  {
    if HasCharsetPrefix(v) then AfterLastApostrophe(v) else v
  }

  // ---------------------------------------------------------------------
  // Percent-decoding (urllib.parse.unquote)
  // ---------------------------------------------------------------------

  predicate IsHexDigit(c: char)
  {
    '0' <= c <= '9' || 'a' <= c <= 'f' || 'A' <= c <= 'F'
  }

  function HexValue(c: char): (d: nat)
    requires IsHexDigit(c)
    ensures d < 16
  {
    if '0' <= c <= '9' then c as int - '0' as int
    else if 'a' <= c <= 'f' then c as int - 'a' as int + 10
    else c as int - 'A' as int + 10
  }

  /** `unquote`: every `%` followed by two hexadecimal digits becomes the
      character with that code; any other `%` is kept as it is. */
  function PercentDecode(s: string): (r: string)
    ensures |r| <= |s|
    ensures '%' !in s ==> r == s
  {
    if s == [] then []
    else if s[0] == '%' && |s| >= 3 && IsHexDigit(s[1]) && IsHexDigit(s[2]) then
      [(16 * HexValue(s[1]) + HexValue(s[2])) as char] + PercentDecode(s[3..])
    else
      assert '%' !in s ==> '%' !in s[1..] by {
        assert forall c :: c in s[1..] ==> c in s;
      }
      [s[0]] + PercentDecode(s[1..])
  }

  /** An upper-case hexadecimal digit. */
  function HexDigit(d: nat): (c: char)
    requires d < 16
    ensures IsHexDigit(c) && HexValue(c) == d
  {
    if d < 10 then ('0' as int + d) as char else ('A' as int + d - 10) as char
  }

  /** The RFC 3986 percent-encoding of every character of a byte string:
      `unquote`'s inverse on ASCII text. */
  function PercentEncode(s: string): (r: string)
    requires forall t :: 0 <= t < |s| ==> s[t] as int < 128
    ensures |r| == 3 * |s|
    ensures '"' !in r && '\'' !in r
  {
    if s == [] then []
    else
      var c := s[0] as int;
      ['%', HexDigit(c / 16), HexDigit(c % 16)] + PercentEncode(s[1..])
  }

  lemma {:induction false} DecodeEncode(s: string)
    requires forall t :: 0 <= t < |s| ==> s[t] as int < 128
    ensures PercentDecode(PercentEncode(s)) == s
  {
    if s != [] {
      var c := s[0] as int;
      var rest := PercentEncode(s[1..]);
      assert PercentEncode(s) == ['%', HexDigit(c / 16), HexDigit(c % 16)] + rest;
      DecodeEscape(s[0], rest);
      DecodeEncode(s[1..]);
      assert s == [s[0]] + s[1..];
    }
  }

  /** One escape decodes back to its character. */
  lemma DecodeEscape(c: char, rest: string)
    requires c as int < 128
    ensures PercentDecode(['%', HexDigit(c as int / 16), HexDigit(c as int % 16)] + rest) == [c] + PercentDecode(rest)
  {
    var e := ['%', HexDigit(c as int / 16), HexDigit(c as int % 16)] + rest;
    assert e[3..] == rest;
    assert 16 * (c as int / 16) + c as int % 16 == c as int;
  }

  // ---------------------------------------------------------------------
  // get_filename_from_cd
  // ---------------------------------------------------------------------

  /** `get_filename_from_cd`: `None` for a missing or empty header or one
      without a quoted `filename` parameter; otherwise the first such
      parameter's value, without its charset prefix, percent-decoded. */
  function GetFilenameFromCd(cd: Option<string>): (r: Option<string>)
    ensures r.None? <==> cd.None? || forall q :: 0 <= q < |cd.value| ==> !MatchesAt(cd.value, q)
    ensures r.Some? ==> (exists p: nat :: MatchesAt(cd.value, p) && |r.value| <= |CapturedAt(cd.value, p)| &&
                          (forall q :: 0 <= q < p ==> !MatchesAt(cd.value, q)) &&
                          r.value == PercentDecode(StripCharset(CapturedAt(cd.value, p))))
  {
    if cd.None? || cd.value == "" then None
    else
      match FirstMatchFrom(cd.value, 0)
      case None => None
      case Some(p) =>
        var v := CapturedAt(cd.value, p);
        Some(PercentDecode(StripCharset(v)))
  }

  /** No match can start inside a stretch of the header before the first `"`
      that is followed by the key, since a match has a `"` nine characters
      after its start. */
  lemma NoMatchBefore(cd: string, m: nat)
    requires m + |FilenameKey| <= |cd|
    requires cd[m..m + |FilenameKey|] == FilenameKey
    requires '"' !in cd[..m]
    ensures forall q :: 0 <= q < m ==> !MatchesAt(cd, q)
  {
    forall q | 0 <= q < m
      ensures !MatchesAt(cd, q)
    {
      if q + 9 < m {
        assert cd[q + 9] == cd[..m][q + 9];
      } else {
        assert cd[q + 9] == cd[m..m + |FilenameKey|][q + 9 - m];
      }
    }
  }

  /** The run of `[^"]` over a quote-free value that a `"` closes. */
  lemma {:induction false} RunOver(s: string, j: nat, v: string)
    requires j + |v| < |s| && s[j..j + |v|] == v && s[j + |v|] == '"'
    requires '"' !in v
    ensures QuoteFreeRun(s, j) == |v|
    decreases |v|
  {
    if v != [] {
      assert s[j] == v[0];
      assert s[j + 1..j + 1 + |v[1..]|] == v[1..];
      RunOver(s, j + 1, v[1..]);
    }
  }

  /** The parameter at the first match is what the header carries, for a
      header `pre filename="value" rest` whose `pre` has no `"`. */
  lemma CapturedValue(pre: string, value: string, rest: string)
    requires '"' !in pre && '"' !in value && value != []
    ensures var cd := pre + FilenameKey + value + "\"" + rest;
      FirstMatchFrom(cd, 0) == Some(|pre|) && CapturedAt(cd, |pre|) == value &&
      GetFilenameFromCd(Some(cd)) == Some(PercentDecode(StripCharset(value)))
  {
    var cd := pre + FilenameKey + value + "\"" + rest;
    var m := |pre|;
    var j := m + |FilenameKey|;
    assert cd[m..j] == FilenameKey;
    assert cd[..m] == pre;
    assert cd[j..j + |value|] == value;
    assert cd[j + |value|] == '"';
    KeyFollowedByValue(cd, m, value);
    NoMatchBefore(cd, m);
    FirstMatchIs(cd, m);
  }

  /** The key followed by a quote-free value and a `"` is a match that
      captures the value. */
  lemma KeyFollowedByValue(s: string, m: nat, value: string)
    requires m + |FilenameKey| + |value| < |s|
    requires s[m..m + |FilenameKey|] == FilenameKey
    requires s[m + |FilenameKey|..m + |FilenameKey| + |value|] == value
    requires s[m + |FilenameKey| + |value|] == '"'
    requires '"' !in value && value != []
    ensures MatchesAt(s, m) && CapturedAt(s, m) == value
  {
    RunOver(s, m + |FilenameKey|, value);
  }

  /** A match with none before it is the first match. */
  lemma FirstMatchIs(s: string, m: nat)
    requires m < |s| && MatchesAt(s, m)
    requires forall q :: 0 <= q < m ==> !MatchesAt(s, q)
    ensures FirstMatchFrom(s, 0) == Some(m)
  {
  }

  /** Whatever precedes it, the leftmost match decides the file name: its
      captured value, without the charset prefix, percent-decoded. */
  lemma FirstMatchResult(cd: string, m: nat)
    requires m < |cd| && MatchesAt(cd, m)
    requires forall q :: 0 <= q < m ==> !MatchesAt(cd, q)
    ensures GetFilenameFromCd(Some(cd)) == Some(PercentDecode(StripCharset(CapturedAt(cd, m))))
  {
    FirstMatchIs(cd, m);
  }

  /** A plain file name comes back unchanged. */
  lemma PlainFilename(pre: string, name: string, rest: string)
    requires '"' !in pre && '"' !in name && '%' !in name && name != []
    requires !StartsWithIgnoringCase(name, "utf-8'")
    ensures GetFilenameFromCd(Some(pre + FilenameKey + name + "\"" + rest)) == Some(name)
  {
    CapturedValue(pre, name, rest);
  }

  /** An RFC 5987 extended value `utf-8''` followed by the percent-encoded
      name comes back as the name. */
  lemma EncodedFilename(pre: string, name: string, rest: string)
    requires '"' !in pre
    requires forall t :: 0 <= t < |name| ==> name[t] as int < 128
    ensures GetFilenameFromCd(Some(pre + FilenameKey + ("utf-8''" + PercentEncode(name)) + "\"" + rest))
            == Some(name)
  {
    var enc := PercentEncode(name);
    var value := "utf-8''" + enc;
    ExtendedValue(enc);
    CapturedValue(pre, value, rest);
    DecodeEncode(name);
  }

  /** An extended value `utf-8''` followed by an encoded name carries the
      charset prefix and strips to the name. */
  lemma ExtendedValue(enc: string)
    requires '"' !in enc && '\'' !in enc
    ensures '"' !in "utf-8''" + enc && "utf-8''" + enc != []
    ensures StripCharset("utf-8''" + enc) == enc
  {
    var value := "utf-8''" + enc;
    assert value[..7] == "utf-8''";
    assert HasCharsetPrefix(value);
    AfterApostrophes("utf-8''", enc);
  }

  /** After a prefix ending in `'`, the text after the last apostrophe is an
      apostrophe-free tail. */
  lemma {:induction false} AfterApostrophes(head: string, tail: string)
    requires head != [] && head[|head| - 1] == '\''
    requires forall t :: 0 <= t < |tail| ==> tail[t] != '\''
    ensures AfterLastApostrophe(head + tail) == tail
    decreases |tail|
  {
    var v := head + tail;
    if tail == [] {
      assert v == head;
    } else {
      var init, c := tail[..|tail| - 1], tail[|tail| - 1];
      assert v[..|v| - 1] == head + init;
      assert v[|v| - 1] == c != '\'';
      assert AfterLastApostrophe(v) == AfterLastApostrophe(head + init) + [c];
      AfterApostrophes(head, init);
      assert init + [c] == tail;
    }
  }

  // ---------------------------------------------------------------------
  // readtext's clean-up of its argument and its URL test
  // ---------------------------------------------------------------------

  /** The characters Python's `str.isspace` accepts, which `str.rstrip()`
      strips. */
  predicate IsPyWhitespace(c: char)
  {
    c == ' ' || '\t' <= c <= '\r' || '\U{001c}' <= c <= '\U{001f}' || c == '\U{0085}' || c == '\U{00a0}'
    || c == '\U{1680}' || '\U{2000}' <= c <= '\U{200a}' || c == '\U{2028}' || c == '\U{2029}'
    || c == '\U{202f}' || c == '\U{205f}' || c == '\U{3000}'
  }

  /** `s.rstrip()`. */
  function RStrip(s: string): (r: string)
    ensures r <= s
    ensures r == [] || !IsPyWhitespace(r[|r| - 1])
    ensures s == [] || !IsPyWhitespace(s[|s| - 1]) ==> r == s
    ensures forall t :: |r| <= t < |s| ==> IsPyWhitespace(s[t])
  {
    if s != [] && IsPyWhitespace(s[|s| - 1]) then RStrip(s[..|s| - 1]) else s
  }

  /** `pat` occurs in `s` at index `t`. */
  predicate OccursAt(s: string, pat: string, t: int)
  {
    0 <= t && t + |pat| <= |s| && s[t..t + |pat|] == pat
  }

  /** `s.replace(pat, '')`: occurrences removed in one left-to-right pass. */
  function RemoveAll(s: string, pat: string): (r: string)
    requires pat != []
    ensures r == s || |r| < |s|
  {
    if |s| < |pat| then s
    else if s[..|pat|] == pat then RemoveAll(s[|pat|..], pat)
    else [s[0]] + RemoveAll(s[1..], pat)
  }

  /** Removing occurrences changes the text exactly when there is one. */
  lemma {:induction false} RemoveAllUnchanged(s: string, pat: string)
    requires pat != []
    ensures RemoveAll(s, pat) == s <==> forall t :: !OccursAt(s, pat, t)
  {
    if |s| >= |pat| {
      if s[..|pat|] == pat {
        assert OccursAt(s, pat, 0);
      } else {
        RemoveAllUnchanged(s[1..], pat);
        forall t | OccursAt(s, pat, t)
          ensures OccursAt(s[1..], pat, t - 1)
        {
          assert t != 0;
          assert s[1..][t - 1..t - 1 + |pat|] == s[t..t + |pat|];
        }
        forall t | OccursAt(s[1..], pat, t)
          ensures OccursAt(s, pat, t + 1)
        {
          assert s[1..][t..t + |pat|] == s[t + 1..t + 1 + |pat|];
        }
      }
    } else {
      forall t ensures !OccursAt(s, pat, t) {
      }
    }
  }

  /** `path.rstrip().replace(' \n', '').replace('%0A', '')`. */
  function CleanPath(path: string): (r: string)
    ensures r == path || |r| < |path|
  {
    RemoveAll(RemoveAll(RStrip(path), " \n"), "%0A")
  }

  /** The clean-up leaves a path alone exactly when it has no trailing
      whitespace and contains neither ` \n` nor `%0A`. */
  lemma CleanPathUnchanged(path: string)
    ensures CleanPath(path) == path <==>
      (path == [] || !IsPyWhitespace(path[|path| - 1])) &&
      (forall t :: !OccursAt(path, " \n", t)) &&
      (forall t :: !OccursAt(path, "%0A", t))
  {
    var a := RStrip(path);
    var b := RemoveAll(a, " \n");
    RemoveAllUnchanged(a, " \n");
    RemoveAllUnchanged(b, "%0A");
    if CleanPath(path) == path {
      assert a == path && b == a;
    }
  }

  /** One pass each: removing `%0A` can join the text around it into a new
      `%0A`, which stays. */
  lemma CleanPathSinglePass()
    ensures CleanPath("%0%0AA") == "%0A"
  {
    var p := "%0%0AA";
    assert RStrip(p) == p;
    RemoveAllAbsent(p, " \n");
    RemoveAcrossJoin();
  }

  /** Text without the pattern's first character has nothing removed. */
  lemma {:induction false} RemoveAllAbsent(s: string, pat: string)
    requires pat != [] && forall t :: 0 <= t < |s| ==> s[t] != pat[0]
    ensures RemoveAll(s, pat) == s
  {
    if |s| >= |pat| {
      assert s[..|pat|][0] != pat[0];
      RemoveAllAbsent(s[1..], pat);
      assert s == [s[0]] + s[1..];
    }
  }

  lemma RemoveAcrossJoin()
    ensures RemoveAll("%0%0AA", "%0A") == "%0A"
  {
    var p := "%0%0AA";
    assert RemoveAll(p[5..], "%0A") == "A";
    assert RemoveAll(p[2..], "%0A") == "A";
    assert RemoveAll(p[1..], "%0A") == "0A";
  }

  /** `s` starts with `prefix`. */
  predicate StartsWith(s: string, prefix: string)
  {
    |prefix| <= |s| && s[..|prefix|] == prefix
  }

  /** `re.match(r'^https?://', path)`: case-sensitive. */
  function IsUrl(path: string): (r: bool)
    ensures r <==> StartsWith(path, "http://") || StartsWith(path, "https://")
  {
    StartsWithConcat(path, "http", "://");
    StartsWithConcat(path, "http", "s://");
    StartsWith(path, "http") && (StartsWith(path[4..], "://") || StartsWith(path[4..], "s://"))
  }

  lemma StartsWithConcat(s: string, a: string, b: string)
    ensures StartsWith(s, a + b) <==> StartsWith(s, a) && StartsWith(s[|a|..], b)
  {
    if StartsWith(s, a) && StartsWith(s[|a|..], b) {
      assert s[..|a + b|] == s[..|a|] + s[|a|..][..|b|];
    }
    if StartsWith(s, a + b) {
      var p := s[..|a + b|];
      assert s[..|a|] == p[..|a|];
      assert s[|a|..][..|b|] == p[|a|..];
    }
  }
}
