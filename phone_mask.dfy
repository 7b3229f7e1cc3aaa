/** The phone input handler's mask: keep the digits, cut them greedily into
    groups of at most 2, 5 and 4 with `(\d{0,2})(\d{0,5})(\d{0,4})`, and
    render them as `(DD) DDDDD-DDDD`. An empty second group writes the bare
    first group, without parentheses; an empty third group leaves out the
    hyphen. */
module PhoneMask {
  import opened Text

  /** The most digits the three groups can hold. */
  const MaxDigits: nat := 11

  function Min(a: nat, b: nat): nat {
    if a <= b then a else b
  }

  /** The digits the mask keeps: the first `MaxDigits` of `d`. */
  function Kept(d: string): string {
    d[..Min(MaxDigits, |d|)]
  }

  /** The three capture groups of `(\d{0,2})(\d{0,5})(\d{0,4})` matched at
      the start of a digit string. */
  datatype Groups = Groups(area: string, first: string, last: string)

  /** The greedy match: the groups spell out the kept digits, respect their
      maximum widths, and a group is only used once the previous is full. */
  function MatchGroups(d: string): (g: Groups)
    ensures g.area + g.first + g.last == Kept(d)
    ensures |g.area| <= 2 && |g.first| <= 5 && |g.last| <= 4
    ensures |g.area| < 2 ==> g.first == []
    ensures |g.first| < 5 ==> g.last == []
  {
    var n := |d|;
    Groups(d[..Min(2, n)], d[Min(2, n)..Min(7, n)], d[Min(7, n)..Min(11, n)])
  }

  /** Renders the groups: a string is falsy in the script exactly when it is
      empty. */
  function Render(g: Groups): string {
    if g.first == [] then g.area
    else "(" + g.area + ") " + g.first + (if g.last != [] then "-" + g.last else "")
  }

  /** What the handler writes back into the phone field for `value`. */
  function Mask(value: string): string {
    Render(MatchGroups(Digits(value)))
  }

  /** The groups as slices of the kept digits. */
  lemma GroupsOfKept(d: string)
    ensures var k := Kept(d);
      var g := MatchGroups(d);
      g.area == k[..Min(2, |k|)] && g.first == k[Min(2, |k|)..Min(7, |k|)] && g.last == k[Min(7, |k|)..]
  {
    var k := Kept(d);
    assert d[..Min(2, |d|)] == k[..Min(2, |k|)];
    assert d[Min(2, |d|)..Min(7, |d|)] == k[Min(2, |k|)..Min(7, |k|)];
    assert d[Min(7, |d|)..Min(11, |d|)] == k[Min(7, |k|)..];
  }

  /** The masked value is at most fifteen characters long and holds nothing
      but digits, parentheses, a space and a hyphen. */
  lemma MaskAlphabet(value: string)
    ensures |Mask(value)| <= 15
    ensures forall k | 0 <= k < |Mask(value)| :: IsDigit(Mask(value)[k]) || Mask(value)[k] in "() -"
  {
    var g := MatchGroups(Digits(value));
    var r := Render(g);
    assert AllDigits(g.area + g.first + g.last);
    assert AllDigits(g.area) && AllDigits(g.first) && AllDigits(g.last);
    if g.first != [] {
      var tail := if g.last != [] then "-" + g.last else "";
      assert r == "(" + g.area + ") " + g.first + tail;
      forall k | 0 <= k < |r| ensures IsDigit(r[k]) || r[k] in "() -" {
        if k == 0 {
        } else if k < 1 + |g.area| {
          assert r[k] == g.area[k - 1];
        } else if k < 3 + |g.area| {
        } else if k < 3 + |g.area| + |g.first| {
          assert r[k] == g.first[k - 3 - |g.area|];
        } else if k > 3 + |g.area| + |g.first| {
          assert r[k] == g.last[k - 4 - |g.area| - |g.first|];
        }
      }
    }
  }

  lemma DigitsOfPunctuation(s: string)
    requires s == "(" || s == ") " || s == "-"
    ensures Digits(s) == []
  {
    DigitsOfNonDigits(s);
  }

  /** The digits a rendering contains are those of its groups, in order. */
  lemma DigitsOfRender(g: Groups)
    requires AllDigits(g.area) && AllDigits(g.first) && AllDigits(g.last)
    requires g.first == [] ==> g.last == []
    ensures Digits(Render(g)) == g.area + g.first + g.last
  {
    DigitsOfDigits(g.area);
    if g.first == [] {
      assert g.area + g.first + g.last == g.area;
    } else {
      DigitsOfDigits(g.first);
      var tail := if g.last != [] then "-" + g.last else "";
      assert Digits(tail) == g.last by {
        DigitsOfDigits(g.last);
        if g.last != [] {
          DigitsOfPunctuation("-");
          DigitsAppend("-", g.last);
        }
      }
      var a := "(" + g.area;
      assert Digits(a) == g.area by {
        DigitsOfPunctuation("(");
        DigitsAppend("(", g.area);
      }
      var b := a + ") ";
      assert Digits(b) == g.area by {
        DigitsOfPunctuation(") ");
        DigitsAppend(a, ") ");
      }
      var c := b + g.first;
      DigitsAppend(b, g.first);
      DigitsAppend(c, tail);
      assert Render(g) == c + tail;
    }
  }

  /** The digits of the masked value are exactly the first eleven digits of
      the input, in order: every other character is dropped. */
  lemma MaskKeepsDigits(value: string)
    ensures Digits(Mask(value)) == Kept(Digits(value))
  {
    var d := Digits(value);
    var g := MatchGroups(d);
    assert g.area + g.first + g.last == Kept(d);
    assert AllDigits(g.area) && AllDigits(g.first) && AllDigits(g.last);
    DigitsOfRender(g);
  }

  /** The mask only depends on the digits it keeps. */
  lemma MatchGroupsOfKept(d: string)
    ensures MatchGroups(Kept(d)) == MatchGroups(d)
  {}

  /** Masking an already masked value leaves it as it is. */
  lemma MaskIdempotent(value: string)
    ensures Mask(Mask(value)) == Mask(value)
  {
    var d := Digits(value);
    MaskKeepsDigits(value);
    MatchGroupsOfKept(d);
  }

  /** The shape of the masked value by the number of digits it keeps. */
  lemma MaskShape(value: string)
    ensures var k := Kept(Digits(value));
      var r := Mask(value);
      (|k| <= 2 ==> r == k) &&
      (3 <= |k| <= 7 ==> r == "(" + k[..2] + ") " + k[2..]) &&
      (8 <= |k| ==> r == "(" + k[..2] + ") " + k[2..7] + "-" + k[7..])
  {
    GroupsOfKept(Digits(value));
  }

  /** A masked value never contains a hyphen unless it has eight digits or
      more, and only contains parentheses once it has three. */
  lemma MaskPunctuation(value: string)
    ensures var n := |Kept(Digits(value))|;
      var r := Mask(value);
      ('-' in r <==> n >= 8) && ('(' in r <==> n >= 3)
  {
    var k := Kept(Digits(value));
    var r := Mask(value);
    MaskShape(value);
    assert AllDigits(k);
    assert '-' !in k && '(' !in k;
    if 3 <= |k| <= 7 {
      assert '-' !in k[..2] && '-' !in k[2..];
      assert r == "(" + k[..2] + ") " + k[2..];
    } else if 8 <= |k| {
      assert r == "(" + k[..2] + ") " + k[2..7] + "-" + k[7..];
    }
  }
}
