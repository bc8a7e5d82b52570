/** The `std::string` operations the core uses on names and keys:
    `find` of one character and splitting on a one-character delimiter. */
module Text {

  /** `s.find(c)`: the index of the first `c`, or `|s|` in place of `npos`. */
  function Find(s: string, c: char): (k: nat)
    ensures k <= |s|
    ensures k < |s| ==> s[k] == c
    ensures forall i :: 0 <= i < k ==> s[i] != c
  {
    if |s| == 0 then 0
    else if s[0] == c then 0
    else 1 + Find(s[1..], c)
  }

  /** `s.substr(0, s.find(c))`: everything before the first `c`, or all of
      `s` when it holds none. */
  function Before(s: string, c: char): (r: string)
    ensures r <= s
    ensures c !in r
    ensures r == s || (|r| < |s| && s[|r|] == c)
  {
    s[..Find(s, c)]
  }

  /** The number of bytes character `c` takes in UTF-8. */
  function Utf8Width(c: char): nat
  {
    if c as int < 0x80 then 1
    else if c as int < 0x800 then 2
    else if c as int < 0x1_0000 then 3
    else 4
  }

  /** `s.length()` of the `std::string` holding `s` encoded in UTF-8: its
      byte count, which is never less than its character count and equals
      it exactly when every character is ASCII. */
  function ByteLength(s: string): (r: nat)
    ensures |s| <= r <= 4 * |s|
    ensures r == |s| <==> forall i :: 0 <= i < |s| ==> s[i] as int < 0x80
  {
    if |s| == 0 then 0 else Utf8Width(s[0]) + ByteLength(s[1..])
  }

  function Count(s: string, c: char): nat
  {
    if |s| == 0 then 0
    else (if s[0] == c then 1 else 0) + Count(s[1..], c)
  }

  /** The maximal `sep`-free pieces of `s`, left to right; two adjacent
      separators, or one at either end, give an empty piece. */
  function Tokens(s: string, sep: char): seq<string>
    decreases |s|
  {
    var k := Find(s, sep);
    if k == |s| then [s] else [s[..k]] + Tokens(s[k + 1..], sep)
  }

  /** The pieces with one `sep` between neighbours. */
  function Join(ts: seq<string>, sep: char): string
  {
    if |ts| == 0 then ""
    else if |ts| == 1 then ts[0]
    else ts[0] + [sep] + Join(ts[1..], sep)
  }

  lemma {:induction false} CountAppend(a: string, b: string, c: char)
    ensures Count(a + b, c) == Count(a, c) + Count(b, c)
  {
    if |a| > 0 {
      assert (a + b)[1..] == a[1..] + b;
      CountAppend(a[1..], b, c);
    } else {
      assert a + b == b;
    }
  }

  lemma {:induction false} CountAbsent(s: string, c: char)
    requires c !in s
    ensures Count(s, c) == 0
  {
    if |s| > 0 { CountAbsent(s[1..], c); }
  }

  /** Splitting gives one piece more than there are separators, no piece
      holds a separator, and joining the pieces gives `s` back. */
  lemma TokensSpec(s: string, sep: char)
    ensures |Tokens(s, sep)| == Count(s, sep) + 1
    ensures forall i :: 0 <= i < |Tokens(s, sep)| ==> sep !in Tokens(s, sep)[i]
    ensures Join(Tokens(s, sep), sep) == s
  {
    TokensCount(s, sep);
    TokensFree(s, sep);
    TokensJoin(s, sep);
  }

  lemma {:induction false} TokensCount(s: string, sep: char)
    ensures |Tokens(s, sep)| == Count(s, sep) + 1
    decreases |s|
  {
    var k := Find(s, sep);
    if k == |s| {
      CountAbsent(s, sep);
    } else {
      var rest := s[k + 1..];
      TokensCount(rest, sep);
      assert s == s[..k] + ([sep] + rest);
      CountAppend(s[..k], [sep] + rest, sep);
      CountAppend([sep], rest, sep);
      CountAbsent(s[..k], sep);
      assert [sep][1..] == [];
      assert Count([sep], sep) == 1;
    }
  }

  lemma {:induction false} TokensFree(s: string, sep: char)
    ensures forall i :: 0 <= i < |Tokens(s, sep)| ==> sep !in Tokens(s, sep)[i]
    decreases |s|
  {
    var k := Find(s, sep);
    if k < |s| {
      var rest := s[k + 1..];
      TokensFree(rest, sep);
      var ts := Tokens(s, sep);
      assert ts == [s[..k]] + Tokens(rest, sep);
      forall i | 0 <= i < |ts| ensures sep !in ts[i] {
        if i > 0 {
          assert ts[i] == Tokens(rest, sep)[i - 1];
        }
      }
    }
  }

  lemma {:induction false} TokensJoin(s: string, sep: char)
    ensures Join(Tokens(s, sep), sep) == s
    decreases |s|
  {
    var k := Find(s, sep);
    if k < |s| {
      var rest := s[k + 1..];
      TokensJoin(rest, sep);
      TokensCount(rest, sep);
      var ts := Tokens(s, sep);
      assert ts == [s[..k]] + Tokens(rest, sep);
      assert ts[1..] == Tokens(rest, sep);
      assert s == s[..k] + [sep] + rest;
    }
  }

  /** Splitting undoes joining `sep`-free pieces. */
  lemma {:induction false} TokensOfJoin(ts: seq<string>, sep: char)
    requires |ts| > 0
    requires forall i :: 0 <= i < |ts| ==> sep !in ts[i]
    ensures Tokens(Join(ts, sep), sep) == ts
  {
    if |ts| == 1 {
      assert Find(ts[0], sep) == |ts[0]|;
    } else {
      TokensOfJoin(ts[1..], sep);
      TokensOfCons(ts[0], Join(ts[1..], sep), sep);
      assert ts == [ts[0]] + ts[1..];
    }
  }

  /** A separator-free first piece comes off first. */
  lemma TokensOfCons(a: string, rest: string, sep: char)
    requires sep !in a
    ensures Tokens(a + [sep] + rest, sep) == [a] + Tokens(rest, sep)
  {
    var s := a + [sep] + rest;
    FindAfterFree(a, rest, sep);
    assert s[..|a|] == a;
    assert s[|a| + 1..] == rest;
  }

  lemma FindAfterFree(a: string, b: string, sep: char)
    requires sep !in a
    ensures Find(a + [sep] + b, sep) == |a|
  {
    var s := a + [sep] + b;
    var k := Find(s, sep);
    assert s[|a|] == sep;
    assert forall i :: 0 <= i < |a| ==> s[i] == a[i];
  }

  /** A key written as three `sep`-free parts splits back into those parts. */
  lemma ThreeTokens(a: string, b: string, c: string, sep: char)
    requires sep !in a && sep !in b && sep !in c
    ensures Tokens(a + [sep] + b + [sep] + c, sep) == [a, b, c]
  {
    var ts := [a, b, c];
    assert Join(ts[2..], sep) == c;
    assert Join(ts[1..], sep) == b + [sep] + c;
    assert Join(ts, sep) == a + [sep] + (b + [sep] + c);
    assert a + [sep] + b + [sep] + c == a + [sep] + (b + [sep] + c);
    TokensOfJoin(ts, sep);
  }
}
