/** The handful of Python `str` methods the sort and uniqueness parsers rely
    on: `isspace`, `strip`, `split(sep)`, `lower` and `replace("  ", " ")`,
    with `Join` as the inverse of `Split`. */
module PyStrings {

  /** Python's `str.isspace` for a single character. */
  predicate IsSpace(c: char) {
    || c == ' '
    || '\t' <= c <= '\r'
    || '\U{1C}' <= c <= '\U{1F}'
    || c == '\U{85}' || c == '\U{A0}' || c == '\U{1680}'
    || '\U{2000}' <= c <= '\U{200A}'
    || c == '\U{2028}' || c == '\U{2029}' || c == '\U{202F}'
    || c == '\U{205F}' || c == '\U{3000}'
  }

  /** Neither end of `s` is whitespace: `strip` leaves `s` alone. */
  predicate Trimmed(s: string) {
    s == [] || (!IsSpace(s[0]) && !IsSpace(s[|s| - 1]))
  }

  /** No two consecutive spaces: `replace("  ", " ")` leaves `s` alone. */
  predicate NoDoubleSpace(s: string) {
    forall i :: 0 <= i < |s| - 1 ==> !(s[i] == ' ' && s[i + 1] == ' ')
  }

  /** Python's `s.lstrip()`. */
  function StripLeft(s: string): (r: string)
    ensures |r| <= |s|
    ensures r == [] || !IsSpace(r[0])
  {
    if |s| > 0 && IsSpace(s[0]) then StripLeft(s[1..]) else s
  }

  /** Python's `s.rstrip()`. */
  function StripRight(s: string): (r: string)
    ensures |r| <= |s|
    ensures r == [] || !IsSpace(r[|r| - 1])
    ensures r != [] ==> r[0] == s[0]
  {
    if |s| > 0 && IsSpace(s[|s| - 1]) then StripRight(s[..|s| - 1]) else s
  }

  /** `lstrip` removes a whitespace prefix and keeps the rest. */
  lemma {:induction false} StripLeftDrops(s: string)
    ensures var r := StripLeft(s);
      r == s[|s| - |r|..] && forall i :: 0 <= i < |s| - |r| ==> IsSpace(s[i])
    decreases |s|
  {
    if |s| > 0 && IsSpace(s[0]) {
      StripLeftDrops(s[1..]);
      var r := StripLeft(s);
      assert r == s[1..][|s| - 1 - |r|..];
      assert forall i :: 1 <= i < |s| - |r| ==> s[i] == s[1..][i - 1];
    }
  }

  /** `rstrip` removes a whitespace suffix and keeps the rest. */
  lemma {:induction false} StripRightDrops(s: string)
    ensures var r := StripRight(s);
      r == s[..|r|] && forall i :: |r| <= i < |s| ==> IsSpace(s[i])
    decreases |s|
  {
    if |s| > 0 && IsSpace(s[|s| - 1]) {
      StripRightDrops(s[..|s| - 1]);
      var r := StripRight(s);
      assert r == s[..|s| - 1][..|r|];
      assert forall i :: |r| <= i < |s| - 1 ==> s[i] == s[..|s| - 1][i];
    }
  }

  /** Python's `s.strip()`: drops leading and trailing whitespace. */
  function Strip(s: string): (r: string)
    ensures Trimmed(r)
    ensures |r| <= |s|
  {
    StripRight(StripLeft(s))
  }

  /** Only an all-whitespace string strips to nothing. */
  lemma {:induction false} StripBlank(s: string)
    ensures Strip(s) == [] <==> forall i :: 0 <= i < |s| ==> IsSpace(s[i])
  {
    var l := StripLeft(s);
    StripLeftDrops(s);
    if l != [] {
      assert StripRight(l) != [] by {
        StripRightDrops(l);
      }
      assert !IsSpace(s[|s| - |l|]);
    }
  }

  /** Stripping introduces no character. */
  lemma {:induction false} StripChars(s: string, c: char)
    requires c !in s
    ensures c !in Strip(s)
  {
    var l := StripLeft(s);
    StripLeftDrops(s);
    StripRightDrops(l);
    assert forall i :: 0 <= i < |Strip(s)| ==> Strip(s)[i] == s[|s| - |l| + i];
  }

  lemma {:induction false} StripTrimmed(s: string)
    requires Trimmed(s)
    ensures Strip(s) == s
  {
  }

  /** Python's `sep.join(parts)` for a one-character separator. */
  function Join(parts: seq<string>, sep: char): string
  {
    if |parts| == 0 then ""
    else if |parts| == 1 then parts[0]
    else parts[0] + [sep] + Join(parts[1..], sep)
  }

  /** Python's `s.split(sep)` for an explicit one-character separator: the
      pieces between separators, empty ones included, never zero pieces. */
  function Split(s: string, sep: char): (parts: seq<string>)
    ensures |parts| >= 1
    ensures forall i :: 0 <= i < |parts| ==> sep !in parts[i]
    ensures sep in s <==> |parts| >= 2
    ensures |s| > 0 && s[0] != sep ==> |parts[0]| > 0 && parts[0][0] == s[0]
    decreases |s|
  {
    if |s| == 0 then [""]
    else
      var rest := Split(s[1..], sep);
      if s[0] == sep then
        [""] + rest
      else
        var parts := [[s[0]] + rest[0]] + rest[1..];
        assert forall i :: 1 <= i < |parts| ==> parts[i] == rest[i];
        parts
  }

  /** Joining the pieces of a split gives back the original string. */
  lemma {:induction false} JoinSplit(s: string, sep: char)
    ensures Join(Split(s, sep), sep) == s
    decreases |s|
  {
    if |s| > 0 {
      JoinSplit(s[1..], sep);
      var rest := Split(s[1..], sep);
      var parts := Split(s, sep);
      if s[0] == sep {
        assert parts == [""] + rest && parts[1..] == rest;
      } else {
        assert parts == [[s[0]] + rest[0]] + rest[1..];
        if |rest| >= 2 {
          assert Join(rest, sep) == rest[0] + [sep] + Join(rest[1..], sep);
          assert parts[1..] == rest[1..];
        }
      }
    }
  }

  /** Splitting introduces no character. */
  lemma {:induction false} SplitChars(s: string, sep: char, c: char)
    requires c !in s
    ensures forall i :: 0 <= i < |Split(s, sep)| ==> c !in Split(s, sep)[i]
    decreases |s|
  {
    if |s| > 0 {
      SplitChars(s[1..], sep, c);
      var rest := Split(s[1..], sep);
      assert c !in [s[0]] + rest[0];
    }
  }

  lemma {:induction false} SplitNoSep(s: string, sep: char)
    requires sep !in s
    ensures Split(s, sep) == [s]
  {
    JoinSplit(s, sep);
  }

  /** A separator-free prefix glues onto the first piece. */
  lemma {:induction false} SplitPrefix(f: string, x: string, sep: char)
    requires sep !in f
    ensures Split(f + x, sep) == [f + Split(x, sep)[0]] + Split(x, sep)[1..]
    decreases |f|
  {
    var sx := Split(x, sep);
    if |f| > 0 {
      var s := f + x;
      assert s[0] == f[0] && s[1..] == f[1..] + x;
      SplitPrefix(f[1..], x, sep);
      var rest := Split(s[1..], sep);
      assert rest == [f[1..] + sx[0]] + sx[1..];
      assert rest[0] == f[1..] + sx[0] && rest[1..] == sx[1..];
      assert Split(s, sep) == [[f[0]] + rest[0]] + rest[1..];
      assert [f[0]] + (f[1..] + sx[0]) == f + sx[0];
    } else {
      assert f + x == x;
      assert f + sx[0] == sx[0];
      assert sx == [sx[0]] + sx[1..];
    }
  }

  /** Splitting at the first separator. */
  lemma {:induction false} SplitAtSep(f: string, rest: string, sep: char)
    requires sep !in f
    ensures Split(f + [sep] + rest, sep) == [f] + Split(rest, sep)
  {
    var x := [sep] + rest;
    SplitPrefix(f, x, sep);
    assert f + [sep] + rest == f + x;
    assert x[0] == sep && x[1..] == rest;
    var sx := Split(x, sep);
    assert sx == [""] + Split(rest, sep);
    assert sx[0] == "" && sx[1..] == Split(rest, sep);
    assert f + sx[0] == f;
  }

  /** `Split` inverts `Join` when no piece holds the separator. */
  lemma {:induction false} SplitJoin(parts: seq<string>, sep: char)
    requires |parts| >= 1
    requires forall i :: 0 <= i < |parts| ==> sep !in parts[i]
    ensures Split(Join(parts, sep), sep) == parts
  {
    if |parts| == 1 {
      SplitNoSep(parts[0], sep);
    } else {
      SplitJoin(parts[1..], sep);
      SplitAtSep(parts[0], Join(parts[1..], sep), sep);
      assert [parts[0]] + parts[1..] == parts;
    }
  }

  lemma {:induction false} JoinChars(parts: seq<string>, sep: char, c: char)
    requires c != sep
    requires forall i :: 0 <= i < |parts| ==> c !in parts[i]
    ensures c !in Join(parts, sep)
  {
    if |parts| >= 2 {
      JoinChars(parts[1..], sep, c);
    }
  }

  /** The joined string starts with the first piece and ends with the last. */
  lemma {:induction false} JoinEnds(parts: seq<string>, sep: char)
    requires |parts| >= 1
    requires forall i :: 0 <= i < |parts| ==> |parts[i]| > 0
    ensures |Join(parts, sep)| > 0
    ensures Join(parts, sep)[0] == parts[0][0]
    ensures Join(parts, sep)[|Join(parts, sep)| - 1] == Last(Last(parts))
  {
    if |parts| >= 2 {
      var rest := Join(parts[1..], sep);
      assert |rest| > 0 && rest[|rest| - 1] == Last(Last(parts)) by {
        JoinEnds(parts[1..], sep);
        assert Last(parts[1..]) == Last(parts);
      }
      var s := Join(parts, sep);
      assert s == parts[0] + [sep] + rest;
      assert s[|s| - 1] == rest[|rest| - 1];
    }
  }

  /** The last element of a non-empty sequence. */
  function Last<T>(xs: seq<T>): T
    requires |xs| > 0
  {
    xs[|xs| - 1]
  }

  function LowerChar(c: char): (r: char)
  {
    if 'A' <= c <= 'Z' then (c as int - 'A' as int + 'a' as int) as char else c
  }

  /** Python's `s.lower()` on the ASCII letters. */
  function Lower(s: string): (r: string)
    ensures |r| == |s|
    ensures forall i :: 0 <= i < |s| ==> r[i] == LowerChar(s[i])
  {
    seq(|s|, i requires 0 <= i < |s| => LowerChar(s[i]))
  }

  /** Python's `s.replace("  ", " ")`: one left-to-right pass that turns each
      non-overlapping pair of spaces into a single space. */
  function ReplaceDoubleSpace(s: string): (r: string)
    ensures |s| > 0 ==> |r| > 0 && r[0] == s[0]
    decreases |s|
  {
    if |s| >= 2 && s[0] == ' ' && s[1] == ' ' then " " + ReplaceDoubleSpace(s[2..])
    else if |s| == 0 then ""
    else [s[0]] + ReplaceDoubleSpace(s[1..])
  }

  /** The replacement never removes the last space of a run. */
  lemma {:induction false} ReplaceKeepsSpace(s: string)
    ensures ' ' in ReplaceDoubleSpace(s) <==> ' ' in s
    decreases |s|
  {
    if |s| >= 2 && s[0] == ' ' && s[1] == ' ' {
      assert ReplaceDoubleSpace(s)[0] == ' ';
    } else if |s| > 0 {
      ReplaceKeepsSpace(s[1..]);
      var r := ReplaceDoubleSpace(s);
      assert r == [s[0]] + ReplaceDoubleSpace(s[1..]);
      assert ' ' in s <==> s[0] == ' ' || ' ' in s[1..];
    }
  }

  /** A prefix without double spaces, not ending in a space, passes through. */
  lemma {:induction false} ReplacePrefix(p: string, x: string)
    requires NoDoubleSpace(p)
    requires p == [] || p[|p| - 1] != ' '
    ensures ReplaceDoubleSpace(p + x) == p + ReplaceDoubleSpace(x)
    decreases |p|
  {
    if |p| == 0 {
      assert p + x == x;
    } else {
      var q := p[1..];
      var s := p + x;
      assert s[1..] == q + x;
      assert p[0] == ' ' ==> |p| >= 2 && p[1] != ' ';
      assert ReplaceDoubleSpace(s) == [p[0]] + ReplaceDoubleSpace(q + x);
      assert NoDoubleSpace(q) by {
        assert forall i :: 0 <= i < |q| ==> q[i] == p[i + 1];
      }
      ReplacePrefix(q, x);
      assert [p[0]] + (q + ReplaceDoubleSpace(x)) == p + ReplaceDoubleSpace(x);
    }
  }

  lemma {:induction false} ReplaceNoDoubleSpace(s: string)
    requires NoDoubleSpace(s)
    requires s == [] || s[|s| - 1] != ' '
    ensures ReplaceDoubleSpace(s) == s
  {
    ReplacePrefix(s, "");
    assert s + "" == s;
  }

  /** A space-free string passes through the replacement unchanged. */
  lemma {:induction false} ReplaceSpaceFree(s: string)
    requires ' ' !in s
    ensures ReplaceDoubleSpace(s) == s
  {
    assert NoDoubleSpace(s);
    ReplaceNoDoubleSpace(s);
  }

  /** A space-free prefix passes through the replacement unchanged. */
  lemma {:induction false} ReplaceAfterSpaceFree(f: string, x: string)
    requires ' ' !in f
    ensures ReplaceDoubleSpace(f + x) == f + ReplaceDoubleSpace(x)
  {
    assert NoDoubleSpace(f);
    ReplacePrefix(f, x);
  }

  function Spaces(n: nat): (r: string)
    ensures |r| == n && forall i :: 0 <= i < n ==> r[i] == ' '
  {
    if n == 0 then "" else " " + Spaces(n - 1)
  }

  lemma {:induction false} ReplaceTwoSpaces(x: string)
    ensures ReplaceDoubleSpace("  " + x) == " " + ReplaceDoubleSpace(x)
  {
    assert ("  " + x)[2..] == x;
  }

  lemma {:induction false} ReplaceOneSpace(t: string)
    requires t == [] || t[0] != ' '
    ensures ReplaceDoubleSpace(" " + t) == " " + ReplaceDoubleSpace(t)
  {
    assert (" " + t)[1..] == t;
  }

  lemma {:induction false} SpacesTail(n: nat, t: string)
    requires n >= 2
    ensures Spaces(n) + t == "  " + (Spaces(n - 2) + t)
  {
    assert Spaces(n) == " " + (" " + Spaces(n - 2));
  }

  /** A run of `n` spaces shrinks to `ceil(n / 2)` spaces. */
  lemma {:induction false} ReplaceSpaces(n: nat, t: string)
    requires t == [] || t[0] != ' '
    ensures ReplaceDoubleSpace(Spaces(n) + t) == Spaces((n + 1) / 2) + ReplaceDoubleSpace(t)
  {
    if n == 0 {
      assert Spaces(n) + t == t;
    } else if n == 1 {
      assert Spaces(1) + t == " " + t;
      ReplaceOneSpace(t);
    } else {
      ReplaceSpaces(n - 2, t);
      ReplaceSpacesStep(n, t);
    }
  }

  lemma {:induction false} ReplaceSpacesStep(n: nat, t: string)
    requires n >= 2
    requires ReplaceDoubleSpace(Spaces(n - 2) + t) == Spaces((n - 1) / 2) + ReplaceDoubleSpace(t)
    ensures ReplaceDoubleSpace(Spaces(n) + t) == Spaces((n + 1) / 2) + ReplaceDoubleSpace(t)
  {
    var x := Spaces(n - 2) + t;
    var m := (n - 1) / 2;
    var rt := ReplaceDoubleSpace(t);
    assert ReplaceDoubleSpace(Spaces(n) + t) == " " + ReplaceDoubleSpace(x) by {
      SpacesTail(n, t);
      ReplaceTwoSpaces(x);
    }
    assert (n + 1) / 2 == m + 1;
    assert Spaces(m + 1) + rt == " " + (Spaces(m) + rt);
  }

  /** The stripped, non-blank entries of `items`, in order. */
  function NonBlank(items: seq<string>): seq<string>
  {
    if |items| == 0 then []
    else if Strip(items[0]) == "" then NonBlank(items[1..])
    else [Strip(items[0])] + NonBlank(items[1..])
  }
}
