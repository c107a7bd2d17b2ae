/**
 * Wordlist candidates (`load_passwords`, cracker.py lines 16-21) and the
 * non-blank line count used as the progress total (line 103).
 *
 * The file is given as the sequence of its lines after decoding, each with its
 * line terminator still attached, as Python's line iteration delivers them.
 */
module Wordlist {

  /**
   * The characters Python's `str.isspace` accepts, which are exactly those that
   * `str.strip()` without arguments removes.
   */
  predicate IsSpace(c: char)
  {
    c == ' ' || c == '\t' || c == '\n' || c == '\r' || c == '\U{000B}' || c == '\U{000C}'
    || ('\U{001C}' <= c <= '\U{001F}')
    || c == '\U{0085}' || c == '\U{00A0}' || c == '\U{1680}'
    || ('\U{2000}' <= c <= '\U{200A}')
    || c == '\U{2028}' || c == '\U{2029}' || c == '\U{202F}' || c == '\U{205F}' || c == '\U{3000}'
  }

  predicate AllSpace(s: string)
  {
    forall i :: 0 <= i < |s| ==> IsSpace(s[i])
  }

  /** Neither end of s is whitespace. */
  predicate Stripped(s: string)
  {
    s != [] ==> !IsSpace(s[0]) && !IsSpace(s[|s| - 1])
  }

  /** `s.lstrip()` (the first half of `str.strip`). */
  function TrimStart(s: string): string
  {
    if s != [] && IsSpace(s[0]) then TrimStart(s[1..]) else s
  }

  /** `s.rstrip()` (the second half of `str.strip`). */
  function TrimEnd(s: string): string
  {
    if s != [] && IsSpace(s[|s| - 1]) then TrimEnd(s[..|s| - 1]) else s
  }

  /** Left stripping cuts the longest all-whitespace prefix: what is left does not start with whitespace. */
  lemma {:induction false} TrimStartSpec(s: string)
    ensures |TrimStart(s)| <= |s| && TrimStart(s) == s[|s| - |TrimStart(s)|..]
    ensures AllSpace(s[..|s| - |TrimStart(s)|])
    ensures TrimStart(s) != [] ==> !IsSpace(TrimStart(s)[0])
  {
    if s != [] && IsSpace(s[0]) {
      var r := TrimStart(s[1..]);
      TrimStartSpec(s[1..]);
      assert s[..|s| - |r|] == [s[0]] + s[1..][..|s| - 1 - |r|];
    }
  }

  /** Right stripping cuts the longest all-whitespace suffix: what is left does not end with whitespace. */
  lemma {:induction false} TrimEndSpec(s: string)
    ensures |TrimEnd(s)| <= |s| && TrimEnd(s) == s[..|TrimEnd(s)|]
    ensures AllSpace(s[|TrimEnd(s)|..])
    ensures TrimEnd(s) != [] ==> !IsSpace(TrimEnd(s)[|TrimEnd(s)| - 1])
  {
    if s != [] && IsSpace(s[|s| - 1]) {
      var r := TrimEnd(s[..|s| - 1]);
      TrimEndSpec(s[..|s| - 1]);
      assert s[|r|..] == s[..|s| - 1][|r|..] + [s[|s| - 1]];
    }
  }

  /** `s.strip()` (cracker.py lines 19 and 103): s without its leading and trailing whitespace. */
  function Strip(s: string): string
  {
    TrimEnd(TrimStart(s))
  }

  /**
   * The stripped string is a slice of s with only whitespace cut from either end, has
   * no whitespace at either end, and is empty exactly when s is all whitespace.
   */
  lemma StripSlice(s: string)
    ensures Stripped(Strip(s))
    ensures Strip(s) == [] <==> AllSpace(s)
    ensures exists i :: 0 <= i <= |s| - |Strip(s)| && Strip(s) == s[i..i + |Strip(s)|]
              && AllSpace(s[..i]) && AllSpace(s[i + |Strip(s)|..])
  {
    var t := TrimStart(s);
    var r := TrimEnd(t);
    var i := |s| - |t|;
    TrimStartSpec(s);
    TrimEndSpec(t);
    assert r == s[i..i + |r|];
    assert s[i + |r|..] == t[|r|..];
    if r != [] {
      assert s[i] == t[0] && !IsSpace(s[i]);
    } else {
      assert t == [];
      assert s[..i] == s;
    }
  }

  /** Stripping removes exactly the whitespace borders: any such split of s gives Strip's result. */
  lemma StripUnique(s: string, i: nat, j: nat)
    requires i <= j <= |s| && AllSpace(s[..i]) && AllSpace(s[j..])
    requires Stripped(s[i..j]) && i < j
    ensures Strip(s) == s[i..j]
  {
    TrimStartAt(s, i);
    TrimEndAt(s[i..], j - i);
    assert s[i..][..j - i] == s[i..j];
  }

  lemma {:induction false} TrimStartAt(s: string, i: nat)
    requires i < |s| && AllSpace(s[..i]) && !IsSpace(s[i])
    ensures TrimStart(s) == s[i..]
  {
    if i > 0 {
      assert IsSpace(s[..i][0]);
      assert s[1..][..i - 1] == s[..i][1..];
      TrimStartAt(s[1..], i - 1);
    }
  }

  lemma {:induction false} TrimEndAt(s: string, j: nat)
    requires 0 < j <= |s| && AllSpace(s[j..]) && !IsSpace(s[j - 1])
    ensures TrimEnd(s) == s[..j]
    decreases |s|
  {
    if j < |s| {
      assert IsSpace(s[j..][|s| - 1 - j]);
      assert s[..|s| - 1][j..] == s[j..][..|s| - 1 - j];
      TrimEndAt(s[..|s| - 1], j);
    }
  }

  /** Stripping twice is stripping once. */
  lemma StripIdempotent(s: string)
    ensures Strip(Strip(s)) == Strip(s)
  {
    var r := Strip(s);
    StripSlice(s);
    if r != [] {
      StripUnique(r, 0, |r|);
    }
  }

  /** What one line contributes: its stripped form, unless that is empty (cracker.py lines 19-21). */
  function Keep(line: string): seq<string>
  {
    if Strip(line) != [] then [Strip(line)] else []
  }

  /** `load_passwords` (cracker.py lines 16-21): each line stripped, blank results dropped, in file order. */
  function LoadPasswords(lines: seq<string>): seq<string>
  {
    if lines == [] then [] else Keep(lines[0]) + LoadPasswords(lines[1..])
  }

  /** Every candidate is a non-empty string with no whitespace at either end. */
  lemma {:induction false} LoadPasswordsStripped(lines: seq<string>)
    ensures |LoadPasswords(lines)| <= |lines|
    ensures forall i :: 0 <= i < |LoadPasswords(lines)| ==>
              LoadPasswords(lines)[i] != [] && Stripped(LoadPasswords(lines)[i])
  {
    if lines != [] {
      LoadPasswordsStripped(lines[1..]);
      StripSlice(lines[0]);
    }
  }

  /** `sum(1 for line in f if line.strip())` (cracker.py line 103). */
  function CountNonBlank(lines: seq<string>): nat
  {
    if lines == [] then 0
    else (if Strip(lines[0]) != [] then 1 else 0) + CountNonBlank(lines[1..])
  }

  /** The line-103 total is the number of candidates the wordlist yields. */
  lemma {:induction false} LoadPasswordsCount(lines: seq<string>)
    ensures |LoadPasswords(lines)| == CountNonBlank(lines)
  {
    if lines != [] {
      LoadPasswordsCount(lines[1..]);
    }
  }

  /** Filtering works line by line in file order: the result for a + b is a's followed by b's. */
  lemma {:induction false} LoadPasswordsAppend(a: seq<string>, b: seq<string>)
    ensures LoadPasswords(a + b) == LoadPasswords(a) + LoadPasswords(b)
  {
    if a == [] {
      assert a + b == b;
    } else {
      assert (a + b)[0] == a[0];
      assert (a + b)[1..] == a[1..] + b;
      LoadPasswordsAppend(a[1..], b);
    }
  }

  /** A single line yields its stripped form when that is non-empty, and nothing otherwise. */
  lemma LoadPasswordsLine(line: string)
    ensures LoadPasswords([line]) == Keep(line)
  {
    assert [line][1..] == [];
  }

  /** `xs` can be obtained from `ys` by deleting elements. */
  predicate SubsequenceOf<T(==)>(xs: seq<T>, ys: seq<T>)
  {
    if xs == [] then true
    else if ys == [] then false
    else if xs[0] == ys[0] then SubsequenceOf(xs[1..], ys[1..])
    else SubsequenceOf(xs, ys[1..])
  }

  /** Every line stripped, in file order. */
  function StripAll(lines: seq<string>): (r: seq<string>)
    ensures |r| == |lines| && forall i :: 0 <= i < |lines| ==> r[i] == Strip(lines[i])
  {
    if lines == [] then [] else [Strip(lines[0])] + StripAll(lines[1..])
  }

  /** The yielded candidates keep file order: they are a subsequence of the stripped lines. */
  lemma {:induction false} LoadPasswordsSubsequence(lines: seq<string>)
    ensures SubsequenceOf(LoadPasswords(lines), StripAll(lines))
  {
    if lines != [] {
      var r := LoadPasswords(lines);
      var s := StripAll(lines);
      LoadPasswordsSubsequence(lines[1..]);
      assert s[1..] == StripAll(lines[1..]);
      if Strip(lines[0]) != [] {
        assert r[0] == s[0] && r[1..] == LoadPasswords(lines[1..]);
      } else {
        assert r == LoadPasswords(lines[1..]);
        SubsequenceCons(r, s[0], s[1..]);
        assert s == [s[0]] + s[1..];
      }
    }
  }

  /** Putting an element in front of a sequence keeps every subsequence of it a subsequence. */
  lemma {:induction false} SubsequenceCons<T>(xs: seq<T>, y: T, ys: seq<T>)
    requires SubsequenceOf(xs, ys)
    ensures SubsequenceOf(xs, [y] + ys)
    decreases |ys| + 1, 0
  {
    assert ([y] + ys)[1..] == ys;
    if xs != [] && xs[0] == y {
      SubsequenceTail(xs, ys);
    }
  }

  /** Dropping the first element of a subsequence keeps it a subsequence. */
  lemma {:induction false} SubsequenceTail<T>(xs: seq<T>, ys: seq<T>)
    requires xs != [] && SubsequenceOf(xs, ys)
    ensures SubsequenceOf(xs[1..], ys)
    decreases |ys|, 1
  {
    assert ys == [ys[0]] + ys[1..];
    if xs[0] == ys[0] {
      SubsequenceCons(xs[1..], ys[0], ys[1..]);
    } else {
      SubsequenceTail(xs, ys[1..]);
      SubsequenceCons(xs[1..], ys[0], ys[1..]);
    }
  }

  /** No non-blank line is lost: each one's stripped form is a candidate. */
  lemma {:induction false} LoadPasswordsKeeps(lines: seq<string>, i: nat)
    requires i < |lines| && Strip(lines[i]) != []
    ensures Strip(lines[i]) in LoadPasswords(lines)
  {
    if i > 0 {
      LoadPasswordsKeeps(lines[1..], i - 1);
    }
  }

  /** Running the filter over its own output changes nothing. */
  lemma {:induction false} LoadPasswordsIdempotent(lines: seq<string>)
    ensures LoadPasswords(LoadPasswords(lines)) == LoadPasswords(lines)
  {
    if lines != [] {
      var k := Keep(lines[0]);
      LoadPasswordsAppend(k, LoadPasswords(lines[1..]));
      LoadPasswordsIdempotent(lines[1..]);
      if k != [] {
        StripIdempotent(lines[0]);
        LoadPasswordsLine(Strip(lines[0]));
      }
    }
  }

  /** A whitespace-only line contributes nothing. */
  lemma KeepBlank(line: string)
    requires AllSpace(line)
    ensures Keep(line) == []
  {
    StripSlice(line);
  }

  /** A word followed by whitespace contributes the word. */
  lemma KeepWord(word: string, tail: string)
    requires word != [] && Stripped(word) && AllSpace(tail)
    ensures Keep(word + tail) == [word]
  {
    var line := word + tail;
    assert line[..0] == [] && line[0..|word|] == word && line[|word|..] == tail;
    StripUnique(line, 0, |word|);
  }

  /** Empty and whitespace-only lines vanish; the others are kept, in order. */
  lemma LoadPasswordsExample()
    ensures LoadPasswords(["", "  ", "abc", "", "xyz"]) == ["abc", "xyz"]
  {
    KeepBlank("");
    KeepBlank("  ");
    KeepWord("abc", "");
    assert "abc" + "" == "abc";
    KeepWord("xyz", "");
    assert "xyz" + "" == "xyz";
    LoadPasswordsLine("xyz");
  }
}
