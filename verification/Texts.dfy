/** Text: decimal numerals and comma-separated lists. */
module Texts {

  function Decimal(n: nat): (s: string)
    ensures s != [] && Digits(s)
  {
    var last := ['0' + (n % 10) as char];
    if n < 10 then last else Decimal(n / 10) + last
  }

  predicate Digits(s: string) {
    forall i :: 0 <= i < |s| ==> '0' <= s[i] <= '9'
  }

  /** int(s) on a digit string. */
  function ParseInt(s: string): nat
    requires Digits(s)
  {
    if s == [] then 0 else 10 * ParseInt(s[..|s| - 1]) + (s[|s| - 1] as int - '0' as int)
  }

  /** An array length survives being written into the type and read back. */
  lemma {:induction false} ParseDecimal(n: nat)
    ensures ParseInt(Decimal(n)) == n
  {
    var last := ['0' + (n % 10) as char];
    if n < 10 {
      assert ParseInt([]) == 0;
    } else {
      ParseDecimal(n / 10);
      assert Decimal(n)[..|Decimal(n)| - 1] == Decimal(n / 10);
    }
  }

  function CommaJoin(names: seq<string>): string {
    if names == [] then ""
    else if |names| == 1 then names[0]
    else names[0] + "," + CommaJoin(names[1..])
  }

  lemma {:induction false} CommaJoinLast(names: seq<string>, last: string)
    ensures CommaJoin(names + [last]) == if names == [] then last else CommaJoin(names) + "," + last
  {
    if names == [] {
      assert names + [last] == [last];
    } else {
      CommaJoinLast(names[1..], last);
      assert (names + [last])[1..] == names[1..] + [last];
    }
  }

  lemma EmptyJoin()
    ensures CommaJoin([]) == ""
  {
  }

  /** The pieces of a text between commas; a text without commas is one piece. */
  function Split(s: string): (ps: seq<string>)
    ensures ps != []
  {
    if s == [] then [[]]
    else
      var ps := Split(s[1..]);
      if s[0] == ',' then [[]] + ps else [[s[0]] + ps[0]] + ps[1..]
  }

  lemma {:induction false} SplitNoComma(s: string)
    requires ',' !in s
    ensures Split(s) == [s]
  {
    if s != [] {
      SplitNoComma(s[1..]);
      assert s == [s[0]] + s[1..];
    }
  }

  lemma {:induction false} SplitFirst(a: string, rest: string)
    requires ',' !in a
    ensures Split(a + "," + rest) == [a] + Split(rest)
  {
    var s := a + "," + rest;
    if a == [] {
      assert s[1..] == rest;
    } else {
      SplitFirst(a[1..], rest);
      assert s[1..] == a[1..] + "," + rest;
      assert a == [a[0]] + a[1..];
    }
  }

  lemma SplitEmpty(names: seq<string>)
    requires names != [] && names[0] != "" && Split(CommaJoin(names)) == names
    ensures CommaJoin(names) != ""
  {
    assert Split("") == [""];
  }

  /** Splitting at the commas undoes joining with commas. */
  lemma {:induction false} SplitJoin(names: seq<string>)
    requires names != [] && forall i :: 0 <= i < |names| ==> ',' !in names[i]
    ensures Split(CommaJoin(names)) == names
  {
    if |names| == 1 {
      SplitNoComma(names[0]);
    } else {
      SplitFirst(names[0], CommaJoin(names[1..]));
      SplitJoin(names[1..]);
    }
  }
}
