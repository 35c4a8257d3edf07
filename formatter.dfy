/**
  The command-line comma-list splitter: `InputFormatter::input_to_vec` splits
  its argument on every `,` and trims surrounding whitespace from each piece.
 */
module Formatter {

  /** Rust's `char::is_whitespace`: the code points with the Unicode
      White_Space property. Of the lemmas below only `ThreeLetters` uses
      this table. */
  predicate IsWhitespace(c: char) {
    var n := c as int;
    (0x9 <= n <= 0xD) || n == 0x20 || n == 0x85 || n == 0xA0 || n == 0x1680
    || (0x2000 <= n <= 0x200A) || n == 0x2028 || n == 0x2029 || n == 0x202F
    || n == 0x205F || n == 0x3000
  }

  /** `str::split` with a single-character pattern: the maximal
      separator-free pieces between separators, empty pieces included. */
  function Split(s: string, sep: char): (r: seq<string>)
    ensures |r| >= 1
    ensures forall k :: 0 <= k < |r| ==> sep !in r[k]
  {
    if s == [] then [[]]
    else
      var rest := Split(s[1..], sep);
      if s[0] == sep then [[]] + rest
      else [[s[0]] + rest[0]] + rest[1..]
  }

  /** The pieces put back together with one separator between neighbours. */
  function Join(parts: seq<string>, sep: char): string
    requires |parts| >= 1
  {
    if |parts| == 1 then parts[0]
    else parts[0] + [sep] + Join(parts[1..], sep)
  }

  /** `str::trim_start`: drops the leading whitespace. */
  function TrimStart(s: string): (r: string)
    ensures |r| <= |s| && r == s[|s| - |r|..]
    ensures forall k :: 0 <= k < |s| - |r| ==> IsWhitespace(s[k])
    ensures r == [] || !IsWhitespace(r[0])
  {
    if s != [] && IsWhitespace(s[0]) then TrimStart(s[1..]) else s
  }

  /** `str::trim_end`: drops the trailing whitespace. */
  function TrimEnd(s: string): (r: string)
    ensures |r| <= |s| && r == s[..|r|]
    ensures forall k :: |r| <= k < |s| ==> IsWhitespace(s[k])
    ensures r == [] || !IsWhitespace(r[|r| - 1])
  {
    if s != [] && IsWhitespace(s[|s| - 1]) then TrimEnd(s[..|s| - 1]) else s
  }

  /** `str::trim`: both ends. */
  function Trim(s: string): (r: string)
    ensures r == [] || (!IsWhitespace(r[0]) && !IsWhitespace(r[|r| - 1]))
  {
    TrimEnd(TrimStart(s))
  }

  /** `InputFormatter::input_to_vec`. */
  function InputToVec(value: string): (r: seq<string>)
    ensures |r| == multiset(value)[','] + 1
    ensures forall k :: 0 <= k < |r| ==> ',' !in r[k]
    ensures forall k :: 0 <= k < |r| ==>
      r[k] == [] || (!IsWhitespace(r[k][0]) && !IsWhitespace(r[k][|r[k]| - 1]))
  {
    var parts := Split(value, ',');
    SplitCount(value, ',');
    forall k | 0 <= k < |parts| ensures ',' !in Trim(parts[k]) {
      TrimIsInfix(parts[k]);
    }
    seq(|parts|, k requires 0 <= k < |parts| => Trim(parts[k]))
  }

  /** Splitting yields one piece more than there are separators. */
  lemma {:induction false} SplitCount(s: string, sep: char)
    ensures |Split(s, sep)| == multiset(s)[sep] + 1
  {
    if s != [] {
      SplitCount(s[1..], sep);
      assert s == [s[0]] + s[1..];
      assert multiset(s) == multiset{s[0]} + multiset(s[1..]);
    }
  }

  /** Joining the pieces gives back the input. */
  lemma {:induction false} JoinSplit(s: string, sep: char)
    ensures Join(Split(s, sep), sep) == s
  {
    if s != [] {
      var rest := Split(s[1..], sep);
      JoinSplit(s[1..], sep);
      if s[0] == sep {
        assert ([[]] + rest)[1..] == rest;
      } else {
        var r := Split(s, sep);
        assert r[0] == [s[0]] + rest[0];
        if |rest| == 1 {
          assert Join(r, sep) == [s[0]] + rest[0];
        } else {
          assert r[1..] == rest[1..];
          assert Join(rest, sep) == rest[0] + [sep] + Join(rest[1..], sep);
        }
      }
    }
  }

  /** Any non-empty list of separator-free pieces is what splitting their
      join gives back: the pieces of `Split` are exactly the segments of the
      input between consecutive separators, in input order. */
  lemma {:induction false} SplitJoin(parts: seq<string>, sep: char)
    requires |parts| >= 1
    requires forall k :: 0 <= k < |parts| ==> sep !in parts[k]
    ensures Split(Join(parts, sep), sep) == parts
    decreases |parts|, |parts[0]|
  {
    var p := parts[0];
    if p == [] {
      if |parts| > 1 {
        var tail := Join(parts[1..], sep);
        SplitJoin(parts[1..], sep);
        assert Join(parts, sep) == [sep] + tail;
        assert ([sep] + tail)[1..] == tail;
        assert parts == [[]] + parts[1..];
      }
    } else {
      var shorter := parts[0 := p[1..]];
      assert p[0] != sep by { assert p[0] in p; }
      forall k | 0 <= k < |shorter| ensures sep !in shorter[k] {
        if k == 0 {
          forall c | c in p[1..] ensures c != sep { assert c in p; }
        }
      }
      SplitJoin(shorter, sep);
      var joined := Join(parts, sep);
      assert joined == [p[0]] + Join(shorter, sep) by {
        if |parts| > 1 {
          assert shorter[1..] == parts[1..];
          assert p == [p[0]] + p[1..];
        } else {
          assert p == [p[0]] + p[1..];
        }
      }
      assert joined[1..] == Join(shorter, sep);
      assert [p[0]] + shorter[0] == p;
      assert shorter[1..] == parts[1..];
    }
  }

  /** A trimmed string is the part of the input between a whitespace-only
      prefix and a whitespace-only suffix. */
  lemma {:induction false} TrimIsInfix(s: string)
    ensures var r := Trim(s); var a := |s| - |TrimStart(s)|;
      a + |r| <= |s| && r == s[a..a + |r|]
      && (forall k :: 0 <= k < a ==> IsWhitespace(s[k]))
      && (forall k :: a + |r| <= k < |s| ==> IsWhitespace(s[k]))
  {
    var t := TrimStart(s);
    TrimEndOfSuffix(s, |s| - |t|, t);
  }

  /** Trimming the end of the suffix of `s` from `a` on leaves an infix
      of `s` followed only by whitespace. */
  lemma TrimEndOfSuffix(s: string, a: nat, t: string)
    requires a <= |s| && t == s[a..]
    ensures var r := TrimEnd(t);
      a + |r| <= |s| && r == s[a..a + |r|]
      && forall k :: a + |r| <= k < |s| ==> IsWhitespace(s[k])
  {
    var r := TrimEnd(t);
    assert r == t[..|r|];
    forall k | a + |r| <= k < |s| ensures IsWhitespace(s[k]) {
      assert s[k] == t[k - a];
    }
  }

  /** Trimming a string that neither starts nor ends with whitespace leaves
      it as it is, so trimming twice is trimming once. */
  lemma TrimIdempotent(s: string)
    ensures Trim(Trim(s)) == Trim(s)
  {
    var r := Trim(s);
    if r != [] {
      assert TrimStart(r) == r;
      assert TrimEnd(r) == r;
    }
  }

  /** Without a comma the whole trimmed input is the one element. */
  lemma {:induction false} NoCommaSingleElement(value: string)
    requires ',' !in value
    ensures InputToVec(value) == [Trim(value)]
  {
    assert Split(value, ',') == [value] by {
      SplitJoin([value], ',');
      assert Join([value], ',') == value;
    }
    ElementsAreTrimmedSegments(value);
  }

  /** Element `k` of the result is the trim of the `k`-th comma-delimited
      segment: the input is those segments joined with commas. */
  lemma {:induction false} ElementsAreTrimmedSegments(value: string)
    ensures var r := InputToVec(value); var parts := Split(value, ',');
      Join(parts, ',') == value && |r| == |parts|
      && forall k :: 0 <= k < |r| ==> r[k] == Trim(parts[k])
  {
    JoinSplit(value, ',');
  }

  /** The empty input yields one empty element. */
  lemma EmptyInput()
    ensures InputToVec("") == [""]
  {
  }

  /** The unit test of `input_to_vec`. */
  lemma ThreeLetters()
    ensures |InputToVec("a,b,c")| == 3 && InputToVec("a,b,c")[0] == "a"
  {
    var input := "a,b,c";
    assert input[1..] == ",b,c" && input[1..][1..] == "b,c";
    assert "b,c"[1..] == ",c" && ",c"[1..] == "c" && "c"[1..] == "";
    assert Split("", ',') == [""];
    var c := Split("c", ',');
    assert c == [['c'] + ""] + [""][1..];
    assert ['c'] + "" == "c";
    assert c == ["c"];
    var commaC := Split(",c", ',');
    assert commaC == ["", "c"];
    var bc := Split("b,c", ',');
    assert bc == [['b'] + commaC[0]] + commaC[1..];
    assert ['b'] + commaC[0] == "b" && commaC[1..] == ["c"];
    assert bc == ["b", "c"];
    var commaBc := Split(",b,c", ',');
    assert commaBc == ["", "b", "c"];
    var abc := Split(input, ',');
    assert abc == [['a'] + commaBc[0]] + commaBc[1..];
    assert ['a'] + commaBc[0] == "a" && commaBc[1..] == ["b", "c"];
    assert abc == ["a", "b", "c"];
    assert Trim("a") == "a" by {
      assert !IsWhitespace('a');
      assert TrimStart("a") == "a";
    }
  }
}
