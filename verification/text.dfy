/** Text helpers shared by the models: separators inside joined text and decimal numerals. */
module Text {

  /** Joins fields with the separator, as repeated string concatenation does. */
  function Join(fields: seq<string>, sep: char): string
    requires |fields| > 0
  {
    if |fields| == 1 then fields[0] else fields[0] + [sep] + Join(fields[1..], sep)
  }

  /** No field contains the separator. */
  predicate FreeOf(fields: seq<string>, sep: char) {
    forall i | 0 <= i < |fields| :: sep !in fields[i]
  }

  function Occurrences(s: string, c: char): nat {
    if s == "" then 0 else (if s[0] == c then 1 else 0) + Occurrences(s[1..], c)
  }

  lemma {:induction false} OccurrencesOfConcat(a: string, b: string, c: char)
    ensures Occurrences(a + b, c) == Occurrences(a, c) + Occurrences(b, c)
  {
    if a == "" {
      assert a + b == b;
    } else {
      assert (a + b)[1..] == a[1..] + b;
      OccurrencesOfConcat(a[1..], b, c);
    }
  }

  lemma {:induction false} OccurrencesZero(s: string, c: char)
    ensures Occurrences(s, c) == 0 <==> c !in s
  {
    if s != "" {
      OccurrencesZero(s[1..], c);
      assert s == [s[0]] + s[1..];
    }
  }

  /** The joined text holds one separator between fields, plus those inside the fields. */
  lemma {:induction false} SeparatorsOfJoin(fields: seq<string>, sep: char)
    requires |fields| > 0
    ensures Occurrences(Join(fields, sep), sep) >= |fields| - 1
    ensures Occurrences(Join(fields, sep), sep) == |fields| - 1 <==> FreeOf(fields, sep)
  {
    OccurrencesZero(fields[0], sep);
    if |fields| > 1 {
      var rest := fields[1..];
      SeparatorsOfJoin(rest, sep);
      OccurrencesOfConcat(fields[0] + [sep], Join(rest, sep), sep);
      OccurrencesOfConcat(fields[0], [sep], sep);
      assert FreeOf(fields, sep) <==> sep !in fields[0] && FreeOf(rest, sep) by {
        assert fields == [fields[0]] + rest;
      }
    }
  }

  /** A text splits uniquely at its first separator. */
  lemma SplitAtFirst(p: string, s: string, q: string, t: string, sep: char)
    requires p + [sep] + s == q + [sep] + t
    requires sep !in p && sep !in q
    ensures p == q && s == t
  {
    var whole := p + [sep] + s;
    assert whole[|p|] == sep && whole[|q|] == sep;
    assert |p| == |q|;
    assert whole[..|p|] == p == q;
    assert whole[|p| + 1..] == s == t;
  }

  /** Joining is injective as soon as one side is free of the separator. */
  lemma {:induction false} JoinInjective(a: seq<string>, b: seq<string>, sep: char)
    requires |a| == |b| > 0
    requires FreeOf(a, sep)
    requires Join(a, sep) == Join(b, sep)
    ensures a == b
  {
    SeparatorsOfJoin(a, sep);
    SeparatorsOfJoin(b, sep);
    if |a| > 1 {
      SplitAtFirst(a[0], Join(a[1..], sep), b[0], Join(b[1..], sep), sep);
      JoinInjective(a[1..], b[1..], sep);
      assert a == [a[0]] + a[1..] && b == [b[0]] + b[1..];
    } else {
      assert a == [a[0]] && b == [b[0]];
    }
  }

  /** A field holding the separator can give its tail to the next field (or its head to the previous one). */
  function Shifted(fields: seq<string>, i: nat, k: nat): (r: seq<string>)
    requires i < |fields| && k < |fields[i]| && |fields| > 1
    ensures |r| == |fields|
  {
    var x, y := fields[i][..k], fields[i][k + 1..];
    if i + 1 < |fields|
    then fields[i := x][i + 1 := y + [fields[i][k]] + fields[i + 1]]
    else fields[i - 1 := fields[i - 1] + [fields[i][k]] + x][i := y]
  }

  lemma {:induction false} JoinSplitAt(fields: seq<string>, i: nat, sep: char)
    requires 0 < i < |fields|
    ensures Join(fields, sep) == Join(fields[..i], sep) + [sep] + Join(fields[i..], sep)
  {
    if i > 1 {
      JoinSplitAt(fields[1..], i - 1, sep);
      assert fields[1..][..i - 1] == fields[..i][1..];
      assert fields[1..][i - 1..] == fields[i..];
    }
  }

  lemma JoinTwo(x: string, y: string, sep: char)
    ensures Join([x, y], sep) == x + [sep] + y
  {
    assert [x, y][1..] == [y];
  }

  /** Rewriting two neighbours without changing their joined text leaves the whole text unchanged. */
  lemma JoinNeighbours(f: seq<string>, g: seq<string>, i: nat, sep: char)
    requires i + 1 < |f| == |g|
    requires f[..i] == g[..i] && f[i + 2..] == g[i + 2..]
    requires f[i] + [sep] + f[i + 1] == g[i] + [sep] + g[i + 1]
    ensures Join(f, sep) == Join(g, sep)
  {
    JoinTail(f, g, i, sep);
    if i > 0 {
      JoinSplitAt(f, i, sep);
      JoinSplitAt(g, i, sep);
    } else {
      assert f[i..] == f && g[i..] == g;
    }
  }

  lemma JoinTail(f: seq<string>, g: seq<string>, i: nat, sep: char)
    requires i + 1 < |f| == |g|
    requires f[i + 2..] == g[i + 2..]
    requires f[i] + [sep] + f[i + 1] == g[i] + [sep] + g[i + 1]
    ensures Join(f[i..], sep) == Join(g[i..], sep)
  {
    JoinTwo(f[i], f[i + 1], sep);
    JoinTwo(g[i], g[i + 1], sep);
    assert f[i..][..2] == [f[i], f[i + 1]] && g[i..][..2] == [g[i], g[i + 1]];
    if i + 2 < |f| {
      JoinSplitAt(f[i..], 2, sep);
      JoinSplitAt(g[i..], 2, sep);
      assert f[i..][2..] == f[i + 2..] && g[i..][2..] == g[i + 2..];
    } else {
      assert f[i..] == f[i..][..2] && g[i..] == g[i..][..2];
    }
  }

  /** Shifting a separator between neighbours changes the fields but not the joined text. */
  lemma ShiftKeepsJoin(fields: seq<string>, i: nat, k: nat, sep: char)
    requires i < |fields| && k < |fields[i]| && |fields| > 1 && fields[i][k] == sep
    ensures Join(Shifted(fields, i, k), sep) == Join(fields, sep)
    ensures Shifted(fields, i, k)[i] != fields[i]
  {
    var g := Shifted(fields, i, k);
    var x, y := fields[i][..k], fields[i][k + 1..];
    assert fields[i] == x + [sep] + y;
    if i + 1 < |fields| {
      assert g[i] == x && g[i + 1] == y + [sep] + fields[i + 1];
      assert fields[i] + [sep] + fields[i + 1] == g[i] + [sep] + g[i + 1];
      assert g[..i] == fields[..i] && g[i + 2..] == fields[i + 2..];
      JoinNeighbours(g, fields, i, sep);
    } else {
      assert g[i - 1] == fields[i - 1] + [sep] + x && g[i] == y;
      assert fields[i - 1] + [sep] + fields[i] == g[i - 1] + [sep] + g[i];
      assert g[..i - 1] == fields[..i - 1] && g[i - 1 + 2..] == fields[i - 1 + 2..];
      JoinNeighbours(g, fields, i - 1, sep);
    }
  }

  /** Decimal numerals, as `%d` prints them. */
  function Numeral(n: nat): (s: string)
    ensures |s| > 0 && AllDigits(s)
  {
    if n < 10 then [Digit(n)] else Numeral(n / 10) + [Digit(n % 10)]
  }

  function Digit(d: nat): (c: char)
    requires d < 10
    ensures '0' <= c <= '9' && (c as int) - ('0' as int) == d
  {
    (('0' as int) + d) as char
  }

  predicate AllDigits(s: string) {
    forall i | 0 <= i < |s| :: '0' <= s[i] <= '9'
  }

  /** Reads a run of digits as a number. */
  function ValueOf(s: string): nat
    requires AllDigits(s)
  {
    if s == "" then 0 else 10 * ValueOf(s[..|s| - 1]) + (s[|s| - 1] as int - '0' as int)
  }

  /** Reading back a printed numeral gives the number. */
  lemma {:induction false} NumeralRoundTrip(n: nat)
    ensures ValueOf(Numeral(n)) == n
  {
    if n < 10 {
      assert Numeral(n)[..0] == "";
    } else {
      var s := Numeral(n);
      NumeralRoundTrip(n / 10);
      assert s[..|s| - 1] == Numeral(n / 10) && s[|s| - 1] == Digit(n % 10);
    }
  }

  function SignedNumeral(n: int): string {
    if n < 0 then "-" + Numeral(-n) else Numeral(n)
  }

  lemma NumeralInjective(m: nat, n: nat)
    requires Numeral(m) == Numeral(n)
    ensures m == n
  {
    NumeralRoundTrip(m);
    NumeralRoundTrip(n);
  }

  lemma {:induction false} SignedNumeralInjective(m: int, n: int)
    requires SignedNumeral(m) == SignedNumeral(n)
    ensures m == n
  {
    assert m < 0 <==> SignedNumeral(m)[0] == '-';
    assert n < 0 <==> SignedNumeral(n)[0] == '-';
    if m < 0 {
      assert SignedNumeral(m)[1..] == Numeral(-m) && SignedNumeral(n)[1..] == Numeral(-n);
      NumeralInjective(-m, -n);
    } else {
      NumeralInjective(m, n);
    }
  }

  /** White space as the trimming functions of the source language define it. */
  predicate IsSpace(c: char) {
    || '\t' <= c <= '\r' || c == ' ' || c == '\U{85}' || c == '\U{A0}' || c == '\U{1680}'
    || '\U{2000}' <= c <= '\U{200A}' || c == '\U{2028}' || c == '\U{2029}'
    || c == '\U{202F}' || c == '\U{205F}' || c == '\U{3000}'
  }

  /** The code points with the Unicode property White_Space. */
  lemma SpacesAreWhiteSpace(c: char)
    ensures IsSpace(c) <==>
            var n := c as int;
            n in {0x9, 0xA, 0xB, 0xC, 0xD, 0x20, 0x85, 0xA0, 0x1680, 0x2000, 0x2001, 0x2002, 0x2003, 0x2004, 0x2005,
                  0x2006, 0x2007, 0x2008, 0x2009, 0x200A, 0x2028, 0x2029, 0x202F, 0x205F, 0x3000}
  {
  }

  function TrimLeft(s: string): (r: string)
    ensures r == "" || !IsSpace(r[0])
    ensures |r| <= |s| && r == s[|s| - |r|..]
  {
    if s != "" && IsSpace(s[0]) then TrimLeft(s[1..]) else s
  }

  function TrimRight(s: string): (r: string)
    ensures r == "" || !IsSpace(r[|r| - 1])
    ensures r <= s
  {
    if s != "" && IsSpace(s[|s| - 1]) then TrimRight(s[..|s| - 1]) else s
  }

  function TrimSpace(s: string): string {
    TrimRight(TrimLeft(s))
  }

  lemma {:induction false} TrimLeftRemoves(s: string)
    ensures forall i | 0 <= i < |s| - |TrimLeft(s)| :: IsSpace(s[i])
  {
    if s != "" && IsSpace(s[0]) {
      TrimLeftRemoves(s[1..]);
      forall i | 0 <= i < |s| - |TrimLeft(s)|
        ensures IsSpace(s[i])
      {
        if i > 0 { assert s[1..][i - 1] == s[i]; }
      }
    }
  }

  lemma {:induction false} TrimRightRemoves(s: string)
    ensures forall i | |TrimRight(s)| <= i < |s| :: IsSpace(s[i])
  {
    if s != "" && IsSpace(s[|s| - 1]) {
      TrimRightRemoves(s[..|s| - 1]);
    }
  }

  /** Trimming leaves no white space at either end. */
  lemma TrimmedEnds(s: string)
    ensures TrimSpace(s) == "" || (!IsSpace(TrimSpace(s)[0]) && !IsSpace(TrimSpace(s)[|TrimSpace(s)| - 1]))
  {
  }

  predicate AllSpaces(s: string) {
    forall i | 0 <= i < |s| :: IsSpace(s[i])
  }

  lemma TrimmedLeft(s: string) returns (a: string)
    ensures s == a + TrimLeft(s) && AllSpaces(a)
  {
    TrimLeftRemoves(s);
    a := s[..|s| - |TrimLeft(s)|];
  }

  lemma TrimmedRight(s: string) returns (b: string)
    ensures s == TrimRight(s) + b && AllSpaces(b)
  {
    TrimRightRemoves(s);
    b := s[|TrimRight(s)|..];
  }

  /** Trimming removes white space only. */
  lemma TrimmedText(s: string) returns (a: string, b: string)
    ensures s == a + TrimSpace(s) + b && AllSpaces(a) && AllSpaces(b)
  {
    a := TrimmedLeft(s);
    b := TrimmedRight(TrimLeft(s));
  }
}
