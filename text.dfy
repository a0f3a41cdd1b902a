/**
 * The .NET string operations the plug-in relies on, restricted to what it uses:
 * ordinal Contains/StartsWith, Split on one character, Replace of one
 * substring, Int32.ToString for a positive number, and ToLower (ASCII only).
 * Each operation comes with an independent characterisation or an inverse.
 */
module Text {

  datatype Option<T> = None | Some(value: T)

  // ---------------------------------------------------------------------------
  // Lower-casing and substring search
  // ---------------------------------------------------------------------------

  function LowerChar(c: char): char {
    if 'A' <= c <= 'Z' then (c as int - 'A' as int + 'a' as int) as char else c
  }

  /** String.ToLower, restricted to the ASCII letters. */
  function ToLower(s: string): (r: string)
    ensures |r| == |s|
    ensures forall i :: 0 <= i < |s| ==> r[i] == LowerChar(s[i])
  {
    seq(|s|, i requires 0 <= i < |s| => LowerChar(s[i]))
  }

  /** `sub` occurs in `s` starting at position i. */
  predicate OccursAt(s: string, sub: string, i: int) {
    0 <= i <= |s| - |sub| && s[i..i + |sub|] == sub
  }

  /** Ordinal String.Contains: `sub` occurs somewhere in `s`. */
  predicate Contains(s: string, sub: string) {
    exists i | 0 <= i <= |s| - |sub| :: OccursAt(s, sub, i)
  }

  /** For a one-character needle, Contains is membership. */
  lemma ContainsChar(s: string, c: char)
    ensures Contains(s, [c]) <==> c in s
  {
    if c in s {
      var i :| 0 <= i < |s| && s[i] == c;
      assert OccursAt(s, [c], i);
    }
    if Contains(s, [c]) {
      var i :| 0 <= i <= |s| - 1 && OccursAt(s, [c], i);
      assert s[i] == s[i..i + 1][0];
    }
  }

  /** Concatenation regrouped. */
  lemma Regroup(a: string, b: string, c: string)
    ensures a + b + c == a + (b + c)
  {
  }

  /** Ordinal String.StartsWith. */
  predicate StartsWith(s: string, prefix: string) {
    |prefix| <= |s| && s[..|prefix|] == prefix
  }

  /** The include-path test of the plug-in: the lower-cased path contains "qt". */
  predicate ContainsQt(path: string) {
    Contains(ToLower(path), "qt")
  }

  /**
   * Reference definition of ContainsQt that does not lower-case: some letter
   * q or Q is immediately followed by t or T.
   */
  lemma ContainsQtByCase(path: string)
    ensures ContainsQt(path) <==>
      exists i :: 0 <= i < |path| - 1 && path[i] in "qQ" && path[i + 1] in "tT"
  {
    var low := ToLower(path);
    if ContainsQt(path) {
      var i :| 0 <= i <= |low| - 2 && OccursAt(low, "qt", i);
      assert low[i..i + 2] == "qt";
      assert low[i] == low[i..i + 2][0] == 'q' && low[i + 1] == low[i..i + 2][1] == 't';
      assert path[i] in "qQ" && path[i + 1] in "tT";
    }
    if i :| 0 <= i < |path| - 1 && path[i] in "qQ" && path[i + 1] in "tT" {
      assert OccursAt(low, "qt", i);
    }
  }

  // ---------------------------------------------------------------------------
  // Removing characters (String.Replace(c, ""))
  // ---------------------------------------------------------------------------

  /** `s` with every occurrence of `c` deleted. */
  function RemoveChar(s: string, c: char): (r: string)
    ensures c !in r
    ensures forall x :: x != c ==> (x in r <==> x in s)
    ensures c !in s ==> r == s
  {
    if s == [] then []
    else if s[0] == c then RemoveChar(s[1..], c)
    else [s[0]] + RemoveChar(s[1..], c)
  }

  // ---------------------------------------------------------------------------
  // Splitting on one character (String.Split(sep)) and its inverse
  // ---------------------------------------------------------------------------

  /** Removing a character distributes over concatenation. */
  lemma {:induction false} RemoveCharAppend(a: string, b: string, c: char)
    ensures RemoveChar(a + b, c) == RemoveChar(a, c) + RemoveChar(b, c)
  {
    if a == [] {
      assert a + b == b;
    } else {
      assert (a + b)[1..] == a[1..] + b;
      RemoveCharAppend(a[1..], b, c);
    }
  }

  /** Number of occurrences of `c` in `s`. */
  function Count(s: string, c: char): nat {
    if s == [] then 0 else (if s[0] == c then 1 else 0) + Count(s[1..], c)
  }

  /** The fields between the occurrences of `sep`; empty fields are kept. */
  function Split(s: string, sep: char): (fields: seq<string>)
    ensures |fields| == Count(s, sep) + 1
    ensures forall k :: 0 <= k < |fields| ==> sep !in fields[k]
  {
    if s == [] then [""]
    else
      var rest := Split(s[1..], sep);
      if s[0] == sep then [""] + rest
      else [[s[0]] + rest[0]] + rest[1..]
  }

  /** The fields put back together with `sep` between neighbours. */
  function Join(fields: seq<string>, sep: char): string {
    if fields == [] then ""
    else if |fields| == 1 then fields[0]
    else fields[0] + [sep] + Join(fields[1..], sep)
  }

  /** Join of two and of three fields, written out. */
  lemma JoinSmall(a: string, b: string, c: string, sep: char)
    ensures Join([a], sep) == a
    ensures Join([a, b], sep) == a + [sep] + b
    ensures Join([a, b, c], sep) == a + [sep] + b + [sep] + c
  {
    assert [a, b][1..] == [b];
    assert [a, b, c][1..] == [b, c] && [b, c][1..] == [c];
    assert Join([b, c], sep) == b + [sep] + c;
  }

  /** Joining the fields of a split gives back the string. */
  lemma {:induction false} JoinSplit(s: string, sep: char)
    ensures Join(Split(s, sep), sep) == s
  {
    if s != [] {
      JoinSplit(s[1..], sep);
      var rest := Split(s[1..], sep);
      if s[0] != sep {
        if |rest| > 1 {
          assert ([[s[0]] + rest[0]] + rest[1..])[1..] == rest[1..];
          assert rest == [rest[0]] + rest[1..];
        }
      } else {
        assert ([""] + rest)[1..] == rest;
      }
    }
  }

  /** Splitting after a separator-free prefix extends the first field only. */
  lemma {:induction false} SplitPrefix(f: string, rest: string, sep: char)
    requires sep !in f
    ensures Split(f + rest, sep) == [f + Split(rest, sep)[0]] + Split(rest, sep)[1..]
  {
    if f == [] {
      var r := Split(rest, sep);
      assert f + rest == rest;
      assert f + r[0] == r[0];
      assert r == [r[0]] + r[1..];
    } else {
      assert (f + rest)[1..] == f[1..] + rest;
      SplitPrefix(f[1..], rest, sep);
      assert [f[0]] + (f[1..] + Split(rest, sep)[0]) == f + Split(rest, sep)[0];
    }
  }

  /** A separator-free field followed by a separator is split off as the first field. */
  lemma SplitCons(f: string, sep: char, rest: string)
    requires sep !in f
    ensures Split(f + [sep] + rest, sep) == [f] + Split(rest, sep)
  {
    var t := [sep] + rest;
    assert t[1..] == rest;
    assert Split(t, sep) == [""] + Split(rest, sep);
    SplitPrefix(f, t, sep);
    Regroup(f, [sep], rest);
    assert f + "" == f;
  }

  /** Splitting the join of separator-free fields gives back the fields. */
  lemma {:induction false} SplitJoin(fields: seq<string>, sep: char)
    requires |fields| >= 1
    requires forall k :: 0 <= k < |fields| ==> sep !in fields[k]
    ensures Split(Join(fields, sep), sep) == fields
  {
    if |fields| == 1 {
      SplitPrefix(fields[0], "", sep);
      assert fields[0] + "" == fields[0];
    } else {
      var tail := Join(fields[1..], sep);
      SplitJoin(fields[1..], sep);
      SplitPrefix(fields[0], [sep] + tail, sep);
      assert fields[0] + [sep] + tail == fields[0] + ([sep] + tail);
      assert ([sep] + tail)[1..] == tail;
      assert Split([sep] + tail, sep) == [""] + fields[1..];
      assert fields[0] + "" == fields[0];
      assert fields == [fields[0]] + fields[1..];
    }
  }

  // ---------------------------------------------------------------------------
  // String.Replace("\\\\", "\\"): a left-to-right, non-overlapping rewrite of
  // every pair of backslashes into one, and its inverse
  // ---------------------------------------------------------------------------

  /** Every pair of backslashes, scanned from the left, becomes one backslash. */
  function CollapseBackslashes(s: string): (r: string)
    ensures |r| <= |s|
    ensures r == [] <==> s == []
  {
    if s == [] then []
    else if |s| >= 2 && s[0] == '\\' && s[1] == '\\' then "\\" + CollapseBackslashes(s[2..])
    else [s[0]] + CollapseBackslashes(s[1..])
  }

  /** Every backslash written twice: how a path is escaped in the configuration file. */
  function EscapeBackslashes(s: string): (r: string)
    ensures |r| == |s| + Count(s, '\\')
  {
    if s == [] then []
    else if s[0] == '\\' then "\\\\" + EscapeBackslashes(s[1..])
    else [s[0]] + EscapeBackslashes(s[1..])
  }

  /** Collapsing undoes escaping. */
  lemma {:induction false} CollapseEscape(s: string)
    ensures CollapseBackslashes(EscapeBackslashes(s)) == s
  {
    if s != [] {
      CollapseEscape(s[1..]);
      var e := EscapeBackslashes(s);
      if s[0] == '\\' {
        assert e[2..] == EscapeBackslashes(s[1..]);
      } else {
        assert e[1..] == EscapeBackslashes(s[1..]);
      }
      assert s == [s[0]] + s[1..];
    }
  }

  /** No two adjacent characters of `s` are both backslashes. */
  predicate NoBackslashPair(s: string) {
    forall i :: 0 <= i < |s| - 1 ==> !(s[i] == '\\' && s[i + 1] == '\\')
  }

  /** A string with no two adjacent backslashes is left as it is. */
  lemma {:induction false} CollapseNoPairs(s: string)
    requires NoBackslashPair(s)
    ensures CollapseBackslashes(s) == s
  {
    if s != [] {
      assert NoBackslashPair(s[1..]) by {
        forall i | 0 <= i < |s[1..]| - 1
          ensures !(s[1..][i] == '\\' && s[1..][i + 1] == '\\')
        {
          assert s[1..][i] == s[i + 1] && s[1..][i + 1] == s[i + 2];
        }
      }
      CollapseNoPairs(s[1..]);
    }
  }

  /** The rewrite treats the text on either side of a character other than a backslash separately. */
  lemma {:induction false} CollapseAround(a: string, c: char, b: string)
    requires c != '\\'
    ensures CollapseBackslashes(a + [c] + b) == CollapseBackslashes(a) + [c] + CollapseBackslashes(b)
  {
    var s := a + [c] + b;
    var cb := CollapseBackslashes(b);
    if a == [] {
      assert s == [c] + b && s[1..] == b;
      assert CollapseBackslashes(s) == [c] + cb;
      assert CollapseBackslashes(a) + [c] + cb == [c] + cb;
    } else if |a| >= 2 && a[0] == '\\' && a[1] == '\\' {
      var rest := CollapseBackslashes(a[2..]);
      assert s[2..] == a[2..] + [c] + b;
      CollapseAround(a[2..], c, b);
      assert CollapseBackslashes(s) == "\\" + (rest + [c] + cb);
      assert CollapseBackslashes(a) == "\\" + rest;
      Regroup("\\", rest, [c]);
      Regroup("\\", rest + [c], cb);
    } else {
      var rest := CollapseBackslashes(a[1..]);
      assert s[0] == a[0] && s[1..] == a[1..] + [c] + b;
      assert !(s[0] == '\\' && s[1] == '\\');
      CollapseAround(a[1..], c, b);
      assert CollapseBackslashes(s) == [a[0]] + (rest + [c] + cb);
      assert CollapseBackslashes(a) == [a[0]] + rest;
      Regroup([a[0]], rest, [c]);
      Regroup([a[0]], rest + [c], cb);
    }
  }

  /** The rewrite applied to each of a sequence of fields. */
  function CollapseEach(fields: seq<string>): seq<string> {
    seq(|fields|, k requires 0 <= k < |fields| => CollapseBackslashes(fields[k]))
  }

  /** Rewriting joined fields rewrites each field, when the separator is not a backslash. */
  lemma {:induction false} CollapseJoin(fields: seq<string>, sep: char)
    requires sep != '\\'
    ensures CollapseBackslashes(Join(fields, sep)) == Join(CollapseEach(fields), sep)
  {
    if |fields| >= 2 {
      CollapseJoin(fields[1..], sep);
      CollapseAround(fields[0], sep, Join(fields[1..], sep));
      assert CollapseEach(fields)[1..] == CollapseEach(fields[1..]);
    }
  }

  /** The rewrite commutes with splitting on a separator that is not a backslash. */
  lemma CollapseSplit(s: string, sep: char)
    requires sep != '\\'
    ensures Split(CollapseBackslashes(s), sep) == CollapseEach(Split(s, sep))
  {
    var fields := Split(s, sep);
    JoinSplit(s, sep);
    CollapseJoin(fields, sep);
    forall k | 0 <= k < |fields|
      ensures sep !in CollapseEach(fields)[k]
    {
      CollapseKeepsOthers(fields[k], sep);
    }
    SplitJoin(CollapseEach(fields), sep);
  }

  /** The rewrite removes only backslashes: every other character is as present as before. */
  lemma {:induction false} CollapseKeepsOthers(s: string, c: char)
    requires c != '\\'
    ensures c in CollapseBackslashes(s) <==> c in s
  {
    if s != [] {
      if |s| >= 2 && s[0] == '\\' && s[1] == '\\' {
        CollapseKeepsOthers(s[2..], c);
        assert s == s[..2] + s[2..];
      } else {
        CollapseKeepsOthers(s[1..], c);
        assert s == [s[0]] + s[1..];
      }
    }
  }

  /** Escaping distributes over concatenation. */
  lemma {:induction false} EscapeAppend(a: string, b: string)
    ensures EscapeBackslashes(a + b) == EscapeBackslashes(a) + EscapeBackslashes(b)
  {
    if a != [] {
      assert (a + b)[1..] == a[1..] + b;
      EscapeAppend(a[1..], b);
    } else {
      assert a + b == b;
    }
  }

  /** Escaping adds only backslashes: every other character is as present as before. */
  lemma {:induction false} EscapeKeepsOthers(s: string, c: char)
    requires c != '\\'
    ensures c in EscapeBackslashes(s) <==> c in s
  {
    if s != [] {
      EscapeKeepsOthers(s[1..], c);
      assert s == [s[0]] + s[1..];
    }
  }

  // ---------------------------------------------------------------------------
  // Decimal rendering of a natural number (Int32.ToString for n >= 0)
  // ---------------------------------------------------------------------------

  function DigitChar(d: nat): (c: char)
    requires d < 10
    ensures '0' <= c <= '9' && c as int - '0' as int == d
  {
    (d + '0' as int) as char
  }

  predicate IsDigits(s: string) {
    forall i :: 0 <= i < |s| ==> '0' <= s[i] <= '9'
  }

  /** The value of a decimal digit string, most significant digit first. */
  function DigitsValue(s: string): nat
    requires IsDigits(s)
  {
    if s == [] then 0 else DigitsValue(s[..|s| - 1]) * 10 + (s[|s| - 1] as int - '0' as int)
  }

  /** Decimal digits of n, without leading zeros. */
  function NatToString(n: nat): (r: string)
    ensures |r| >= 1 && IsDigits(r)
    ensures n > 0 ==> r[0] != '0'
  {
    if n < 10 then [DigitChar(n)] else NatToString(n / 10) + [DigitChar(n % 10)]
  }

  /** Reading the digits back gives the number. */
  lemma {:induction false} NatToStringValue(n: nat)
    ensures DigitsValue(NatToString(n)) == n
  {
    if n >= 10 {
      NatToStringValue(n / 10);
      var r := NatToString(n);
      assert r[..|r| - 1] == NatToString(n / 10);
    }
  }
}
