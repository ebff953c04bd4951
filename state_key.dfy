/** The value-table key of the learning engine: the text of the board as
    java.util.Arrays.toString prints an int array ("[0, 1, 2, ...]") followed by
    the decimal text of the player id. */
module StateKey {

  /** The decimal digit character for `d`. */
  function Digit(d: nat): (c: char)
    requires d < 10
    ensures '0' <= c <= '9'
  {
    (48 + d) as char
  }

  predicate IsDigit(c: char)
  {
    '0' <= c <= '9'
  }

  /** Decimal text of a natural number, most significant digit first, no leading zeros. */
  function NatToString(n: nat): (r: string)
    ensures |r| >= 1
    ensures forall k :: 0 <= k < |r| ==> IsDigit(r[k])
    decreases n
  {
    if n < 10 then [Digit(n)] else NatToString(n / 10) + [Digit(n % 10)]
  }

  /** Reads decimal digits back, most significant first. */
  function ParseNat(r: string): int
  {
    if |r| == 0 then 0 else ParseNat(r[..|r| - 1]) * 10 + (r[|r| - 1] as int - 48)
  }

  /** Java's Integer.toString: a minus sign before the digits of a negative number. */
  function IntToString(i: int): (r: string)
    ensures |r| >= 1
    ensures forall k :: 0 <= k < |r| ==> IsDigit(r[k]) || r[k] == '-'
  {
    if i < 0 then "-" + NatToString(-i) else NatToString(i)
  }

  function ParseInt(r: string): int
  {
    if |r| > 0 && r[0] == '-' then -ParseNat(r[1..]) else ParseNat(r)
  }

  /** The elements separated by ", ", as between the brackets of Arrays.toString. */
  function Join(cells: seq<int>): (r: string)
    ensures forall k :: 0 <= k < |r| ==> r[k] != ']'
    ensures |cells| == 0 <==> |r| == 0
  {
    if |cells| == 0 then ""
    else if |cells| == 1 then IntToString(cells[0])
    else IntToString(cells[0]) + ", " + Join(cells[1..])
  }

  /** java.util.Arrays.toString of an int array. */
  function ArrayToString(cells: seq<int>): string
  {
    "[" + Join(cells) + "]"
  }

  /** The key of a (board, player) pair: Arrays.toString(state) + Integer.toString(player). */
  function KeyOf(state: seq<int>, player: int): string
  {
    ArrayToString(state) + IntToString(player)
  }

  lemma {:induction false} ParseNatToString(n: nat)
    ensures ParseNat(NatToString(n)) == n
    decreases n
  {
    if n >= 10 {
      var r := NatToString(n);
      assert r[..|r| - 1] == NatToString(n / 10);
      ParseNatToString(n / 10);
    }
  }

  /** Reading the decimal text of an integer gives the integer back. */
  lemma ParseIntToString(i: int)
    ensures ParseInt(IntToString(i)) == i
  {
    if i < 0 {
      var n := NatToString(-i);
      assert IntToString(i) == "-" + n;
      assert ("-" + n)[1..] == n;
      ParseNatToString(-i);
    } else {
      var n := NatToString(i);
      assert IntToString(i) == n && IsDigit(n[0]);
      ParseNatToString(i);
    }
  }

  /** Distinct integers print differently. */
  lemma IntToStringInjective(i: int, j: int)
    requires IntToString(i) == IntToString(j)
    ensures i == j
  {
    ParseIntToString(i);
    ParseIntToString(j);
  }

  /** Position of the first occurrence of `c` in `x`. */
  function IndexOf(x: string, c: char): nat
    requires c in x
  {
    if x[0] == c then 0 else 1 + IndexOf(x[1..], c)
  }

  lemma {:induction false} IndexOfAfterPrefix(a: string, b: string, c: char)
    requires c !in a
    ensures IndexOf(a + [c] + b, c) == |a|
  {
    if a != [] {
      assert (a + [c] + b)[1..] == a[1..] + [c] + b;
      IndexOfAfterPrefix(a[1..], b, c);
    }
  }

  /** A text with a separator in it, whose first character occurs in neither
      prefix, splits uniquely at it. */
  lemma SplitAtSeparator(a: string, b: string, a': string, b': string, sep: string)
    requires |sep| > 0 && a + sep + b == a' + sep + b'
    requires sep[0] !in a && sep[0] !in a'
    ensures a == a' && b == b'
  {
    var x := a + sep + b;
    var c, tail := sep[0], sep[1..] + b;
    var tail' := sep[1..] + b';
    assert x == a + [c] + tail;
    assert x == a' + [c] + tail';
    IndexOfAfterPrefix(a, tail, c);
    IndexOfAfterPrefix(a', tail', c);
    assert a == x[..|a|] == a';
    assert b == x[|a| + |sep|..] == b';
  }

  lemma NoCommaInInt(i: int)
    ensures ',' !in IntToString(i)
  {
  }

  /** Two lists of two or more cells that print alike agree on the first cell and
      on the print of the rest. */
  lemma JoinHeadTail(x: seq<int>, y: seq<int>)
    requires |x| > 1 && |y| > 1 && Join(x) == Join(y)
    ensures x[0] == y[0] && Join(x[1..]) == Join(y[1..])
  {
    NoCommaInInt(x[0]);
    NoCommaInInt(y[0]);
    SplitAtSeparator(IntToString(x[0]), Join(x[1..]), IntToString(y[0]), Join(y[1..]), ", ");
    IntToStringInjective(x[0], y[0]);
  }

  /** A list of two or more cells prints with a comma after its first cell. */
  lemma CommaAfterHead(x: seq<int>)
    requires |x| > 1
    ensures Join(x)[|IntToString(x[0])|] == ','
  {
  }

  /** Different lists of cells print differently. */
  lemma {:induction false} JoinInjective(x: seq<int>, y: seq<int>)
    requires Join(x) == Join(y)
    ensures x == y
  {
    if |x| == 0 || |y| == 0 {
    } else if |x| == 1 && |y| == 1 {
      IntToStringInjective(x[0], y[0]);
    } else if |x| == 1 {
      NoCommaInInt(x[0]);
      CommaAfterHead(y);
    } else if |y| == 1 {
      NoCommaInInt(y[0]);
      CommaAfterHead(x);
    } else {
      JoinHeadTail(x, y);
      JoinInjective(x[1..], y[1..]);
      assert x == [x[0]] + x[1..] && y == [y[0]] + y[1..];
    }
  }

  /** Two (board, player) pairs share a key only when they are equal: the
      serialisation is exact, so distinct positions never collide in the table. */
  lemma KeyInjective(s: seq<int>, p: int, s': seq<int>, p': int)
    requires KeyOf(s, p) == KeyOf(s', p')
    ensures s == s' && p == p'
  {
    SplitAtSeparator("[" + Join(s), IntToString(p), "[" + Join(s'), IntToString(p'), "]");
    assert Join(s) == ("[" + Join(s))[1..];
    assert Join(s') == ("[" + Join(s'))[1..];
    JoinInjective(s, s');
    IntToStringInjective(p, p');
  }
}
