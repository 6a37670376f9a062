/** The string operations the association-rule application applies to items:
    joining with a separator, splitting on a separator character, stripping
    surrounding whitespace, and writing an integer in decimal. Each function
    follows the behaviour of the Python built-in it stands for. */
module Text {
  import opened Lists

  /** Number of occurrences of `c` in `s`. */
  function Count(s: string, c: char): nat
  {
    if s == [] then 0 else (if s[0] == c then 1 else 0) + Count(s[1..], c)
  }

  // ---------------------------------------------------------------- join

  /** `sep.join(items)`: the items in their given order, with `sep` between
      neighbours and nowhere else. */
  function Join(items: seq<string>, sep: string): (r: string)
    ensures items != [] ==> items[0] <= r
  {
    if |items| == 0 then ""
    else if |items| == 1 then items[0]
    else items[0] + sep + Join(items[1..], sep)
  }

  /** An empty list joins to "", a single item joins to itself, and appending
      an item to a non-empty list appends one separator and that item. */
  lemma {:induction false} JoinShape(items: seq<string>, x: string, sep: string)
    ensures Join([], sep) == ""
    ensures Join([x], sep) == x
    ensures items != [] ==> Join(items + [x], sep) == Join(items, sep) + sep + x
  {
    if |items| > 1 {
      assert (items + [x])[1..] == items[1..] + [x];
      JoinShape(items[1..], x, sep);
    } else if |items| == 1 {
      assert items + [x] == [items[0], x];
      assert [items[0], x][1..] == [x];
    }
  }

  /** The joined text is exactly as long as the items together plus one
      separator between each pair of neighbours. */
  lemma {:induction false} JoinLength(items: seq<string>, sep: string)
    requires items != []
    ensures |Join(items, sep)| == TotalLength(items) + |sep| * (|items| - 1)
  {
    ConcatAppend([items[0]], items[1..]);
    assert [items[0]] + items[1..] == items;
    assert [items[0]][..0] == [];
    if |items| > 1 {
      JoinLength(items[1..], sep);
    }
  }

  // ---------------------------------------------------------------- split

  /** `s.split(c)` with an explicit one-character separator: the pieces between
      consecutive occurrences of `c`, empty pieces included, so there is always
      one more piece than there are separators and no piece contains one. */
  function Split(s: string, c: char): (pieces: seq<string>)
    ensures |pieces| == Count(s, c) + 1
    ensures forall k :: 0 <= k < |pieces| ==> c !in pieces[k]
  {
    if s == [] then [""]
    else
      var rest := Split(s[1..], c);
      if s[0] == c then [""] + rest
      else [[s[0]] + rest[0]] + rest[1..]
  }

  /** Joining the pieces of a split with the separator gives back the text. */
  lemma {:induction false} JoinSplit(s: string, c: char)
    ensures Join(Split(s, c), [c]) == s
  {
    if s != [] {
      var rest := Split(s[1..], c);
      JoinSplit(s[1..], c);
      if s[0] == c {
        assert Split(s, c) == [""] + rest;
        assert ([""] + rest)[1..] == rest;
      } else {
        var pieces := [[s[0]] + rest[0]] + rest[1..];
        assert Split(s, c) == pieces;
        if |rest| == 1 {
          assert rest == [rest[0]];
        } else {
          assert pieces[1..] == rest[1..];
          assert rest[1..] == rest[1..][..];
          assert Join(rest, [c]) == rest[0] + [c] + Join(rest[1..], [c]);
        }
        assert s == [s[0]] + s[1..];
      }
    }
  }

  /** Splitting a text that begins with a separator-free stretch `x`: `x` is
      glued to the front of the first piece of the remainder. */
  lemma {:induction false} SplitAfterPlain(x: string, t: string, c: char)
    requires c !in x
    ensures Split(x + t, c) == [x + Split(t, c)[0]] + Split(t, c)[1..]
  {
    if x != [] {
      assert (x + t)[1..] == x[1..] + t;
      assert (x + t)[0] == x[0];
      SplitAfterPlain(x[1..], t, c);
      assert [x[0]] + (x[1..] + Split(t, c)[0]) == x + Split(t, c)[0];
    } else {
      var pieces := Split(t, c);
      assert x + t == t;
      assert x + pieces[0] == pieces[0];
      assert pieces == [pieces[0]] + pieces[1..];
    }
  }

  /** Splitting the join of separator-free items gives back the items. */
  lemma {:induction false} SplitJoin(items: seq<string>, c: char)
    requires items != []
    requires forall k :: 0 <= k < |items| ==> c !in items[k]
    ensures Split(Join(items, [c]), c) == items
  {
    if |items| == 1 {
      SplitAfterPlain(items[0], [], c);
      assert Join(items, [c]) == items[0] == items[0] + [];
      assert Split([], c) == [""];
      assert items[0] + "" == items[0];
      assert [""][1..] == [];
      assert items == [items[0]];
    } else {
      var tail := Join(items[1..], [c]);
      SplitJoin(items[1..], c);
      assert Join(items, [c]) == items[0] + ([c] + tail);
      SplitAfterPlain(items[0], [c] + tail, c);
      assert ([c] + tail)[1..] == tail;
      var after := Split([c] + tail, c);
      assert after == [""] + Split(tail, c);
      assert after[0] == "" && after[1..] == items[1..];
      assert items[0] + after[0] == items[0];
      assert items == [items[0]] + items[1..];
    }
  }

  // ---------------------------------------------------------------- strip

  /** The characters Python's `str.isspace()` accepts, which `str.strip()`
      with no argument removes. Blank, tab, newline and carriage return are
      among them; the comma the manual-entry form splits on and the decimal
      digits are not. */
  predicate IsSpace(ch: char): (b: bool)
    ensures ch == ' ' || ch == '\t' || ch == '\n' || ch == '\r' ==> b
    ensures b ==> ch != ',' && !IsDigit(ch)
  {
    ch == ' ' || ('\t' <= ch <= '\r') || ('\U{1C}' <= ch <= '\U{1F}') ||
    ch == '\U{85}' || ch == '\U{A0}' || ch == '\U{1680}' ||
    ('\U{2000}' <= ch <= '\U{200A}') || ch == '\U{2028}' || ch == '\U{2029}' ||
    ch == '\U{202F}' || ch == '\U{205F}' || ch == '\U{3000}'
  }

  /** `s.lstrip()`: a suffix of `s`; everything dropped is whitespace and the
      result does not start with whitespace. */
  function StripStart(s: string): (r: string)
    ensures |r| <= |s| && r == s[|s| - |r|..]
    ensures forall k :: 0 <= k < |s| - |r| ==> IsSpace(s[k])
    ensures r != [] ==> !IsSpace(r[0])
  {
    if s != [] && IsSpace(s[0]) then StripStart(s[1..]) else s
  }

  /** `s.rstrip()`: a prefix of `s`; everything dropped is whitespace and the
      result does not end with whitespace. */
  function StripEnd(s: string): (r: string)
    ensures |r| <= |s| && r == s[..|r|]
    ensures forall k :: |r| <= k < |s| ==> IsSpace(s[k])
    ensures r != [] ==> !IsSpace(r[|r| - 1])
  {
    if s != [] && IsSpace(s[|s| - 1]) then StripEnd(s[..|s| - 1]) else s
  }

  /** Number of whitespace characters `s.strip()` removes from the front. */
  function Lead(s: string): nat
  {
    |s| - |StripStart(s)|
  }

  /** `s.strip()`: the stretch of `s` left after removing whitespace from both
      ends. Everything removed is whitespace and what is left neither starts
      nor ends with whitespace. */
  function Strip(s: string): (r: string)
    ensures Lead(s) + |r| <= |s| && r == s[Lead(s)..Lead(s) + |r|]
    ensures forall k :: 0 <= k < Lead(s) ==> IsSpace(s[k])
    ensures forall k :: Lead(s) + |r| <= k < |s| ==> IsSpace(s[k])
    ensures r != [] ==> !IsSpace(r[0]) && !IsSpace(r[|r| - 1])
  {
    StripEnd(StripStart(s))
  }

  /** A text is stripped when `strip()` leaves it as it is. */
  predicate IsStripped(s: string)
  {
    s == [] || (!IsSpace(s[0]) && !IsSpace(s[|s| - 1]))
  }

  /** `lstrip()` removes a run of leading whitespace and stops at the first
      character that is not whitespace. */
  lemma {:induction false} StripStartAfterSpaces(w: string, x: string)
    requires forall k :: 0 <= k < |w| ==> IsSpace(w[k])
    requires x == [] || !IsSpace(x[0])
    ensures StripStart(w + x) == x
  {
    if w != [] {
      assert (w + x)[0] == w[0];
      assert (w + x)[1..] == w[1..] + x;
      StripStartAfterSpaces(w[1..], x);
    } else {
      assert w + x == x;
    }
  }

  /** Stripping a stripped text preceded by whitespace gives that text. */
  lemma StripAfterSpaces(w: string, x: string)
    requires forall k :: 0 <= k < |w| ==> IsSpace(w[k])
    requires IsStripped(x)
    ensures Strip(w + x) == x
  {
    StripStartAfterSpaces(w, x);
  }

  /** Stripping is idempotent. */
  lemma StripIdempotent(s: string)
    ensures Strip(Strip(s)) == Strip(s)
  {
    StripAfterSpaces([], Strip(s));
    assert [] + Strip(s) == Strip(s);
  }

  // ---------------------------------------------------------------- decimal

  /** The decimal digit character for `d`. */
  function DigitChar(d: nat): (ch: char)
    requires d < 10
    ensures '0' <= ch <= '9'
  {
    (('0' as int) + d) as char
  }

  predicate IsDigit(ch: char)
  {
    '0' <= ch <= '9'
  }

  /** The value of a decimal digit character. */
  function DigitValue(ch: char): (d: nat)
    requires IsDigit(ch)
    ensures d < 10
  {
    (ch as int) - ('0' as int)
  }

  /** `str(n)` for a natural number: its decimal digits, most significant
      first, with no leading zero. */
  function NatToDecimal(n: nat): (r: string)
    ensures r != []
    ensures forall k :: 0 <= k < |r| ==> IsDigit(r[k])
    ensures r[0] == '0' ==> n == 0
  {
    if n < 10 then [DigitChar(n)] else NatToDecimal(n / 10) + [DigitChar(n % 10)]
  }

  /** `str(i)` for an integer: a minus sign before the digits of `-i` when `i`
      is negative. */
  function IntToDecimal(i: int): (r: string)
    ensures r != []
    ensures (r[0] == '-') == (i < 0)
    ensures i >= 0 ==> (forall k :: 0 <= k < |r| ==> IsDigit(r[k])) && DecimalValue(r) == i
    ensures i < 0 ==> |r| >= 2 && (forall k :: 1 <= k < |r| ==> IsDigit(r[k])) && DecimalValue(r[1..]) == -i
  {
    var magnitude := if i < 0 then -i else i;
    DecimalRoundTrip(magnitude);
    var r := (if i < 0 then "-" else "") + NatToDecimal(magnitude);
    assert i >= 0 ==> r == NatToDecimal(magnitude);
    assert i < 0 ==> r[1..] == NatToDecimal(magnitude);
    r
  }

  /** The number a string of decimal digits denotes. */
  function DecimalValue(s: string): nat
    requires forall k :: 0 <= k < |s| ==> IsDigit(s[k])
  {
    if s == [] then 0
    else 10 * DecimalValue(s[..|s| - 1]) + DigitValue(s[|s| - 1])
  }

  /** Reading back the decimal rendering of `n` gives `n`. */
  lemma {:induction false} DecimalRoundTrip(n: nat)
    ensures DecimalValue(NatToDecimal(n)) == n
  {
    var r := NatToDecimal(n);
    if n >= 10 {
      DecimalRoundTrip(n / 10);
      assert r[..|r| - 1] == NatToDecimal(n / 10);
    }
  }

  /** Different numbers have different renderings. */
  lemma DecimalInjective(m: nat, n: nat)
    requires m != n
    ensures NatToDecimal(m) != NatToDecimal(n)
  {
    DecimalRoundTrip(m);
    DecimalRoundTrip(n);
  }
}
