/** The string building blocks the library uses: `Array#join`, `Array#compact` and `String#*`. */
module Text {
  import opened Wrappers

  /** `parts.join(sep)`: the parts in order with `sep` between neighbours. */
  function Join(parts: seq<string>, sep: string): string
  {
    if |parts| == 0 then ""
    else if |parts| == 1 then parts[0]
    else parts[0] + sep + Join(parts[1..], sep)
  }

  /** `parts.compact`: the present parts in order. */
  function Compact(parts: seq<Option<string>>): seq<string>
  {
    if |parts| == 0 then []
    else (if parts[0].Some? then [parts[0].value] else []) + Compact(parts[1..])
  }

  /** A space-joined list of one required part and two optional ones: each optional part adds itself after a space. */
  lemma JoinPresent(first: string, second: Option<string>, third: Option<string>)
    ensures Join(Compact([Some(first), second, third]), " ") ==
      first + (if second.Some? then " " + second.value else "") + (if third.Some? then " " + third.value else "")
  {
    assert [Some(first), second, third] == [Some(first), second] + [third];
    assert [Some(first), second] == [Some(first)] + [second];
    CompactSnoc([Some(first)], second);
    CompactSnoc([Some(first), second], third);
    if second.Some? {
      JoinSnoc([first], second.value, " ");
    }
    if third.Some? {
      JoinSnoc(Compact([Some(first), second]), third.value, " ");
    }
  }

  /** Two spaces repeated `n` times are `2 * n` spaces. */
  lemma {:induction false} RepeatSpaces(n: nat)
    ensures |Repeat("  ", n)| == 2 * n
    ensures forall i | 0 <= i < |Repeat("  ", n)| :: Repeat("  ", n)[i] == ' '
  {
    if n > 0 {
      RepeatSpaces(n - 1);
      assert Repeat("  ", n) == "  " + Repeat("  ", n - 1);
    }
  }

  /** `s * n`: `n` copies of `s`. */
  function Repeat(s: string, n: nat): string
  {
    if n == 0 then "" else s + Repeat(s, n - 1)
  }

  /** Appending a part to a join adds the separator only when there was something before. */
  lemma {:induction false} JoinSnoc(parts: seq<string>, x: string, sep: string)
    ensures Join(parts + [x], sep) == if parts == [] then x else Join(parts, sep) + sep + x
  {
    if |parts| > 1 {
      assert (parts + [x])[1..] == parts[1..] + [x];
      JoinSnoc(parts[1..], x, sep);
    } else if |parts| == 1 {
      assert parts + [x] == [parts[0], x];
    }
  }

  /** A character that is in no part and not in the separator is not in the join. */
  lemma {:induction false} JoinAvoids(parts: seq<string>, sep: string, c: char)
    requires c !in sep
    requires forall i | 0 <= i < |parts| :: c !in parts[i]
    ensures c !in Join(parts, sep)
  {
    if |parts| > 1 {
      JoinAvoids(parts[1..], sep, c);
    }
  }

  /** The join begins with its first part. */
  lemma {:induction false} JoinStartsWithFirst(parts: seq<string>, sep: string)
    requires |parts| > 0
    ensures parts[0] <= Join(parts, sep)
  {
  }

  /** Joining two lists is joining their joins, when both are non-empty. */
  lemma {:induction false} JoinConcat(a: seq<string>, b: seq<string>, sep: string)
    requires |a| > 0 && |b| > 0
    ensures Join(a + b, sep) == Join(a, sep) + sep + Join(b, sep)
  {
    if |a| == 1 {
      assert (a + b)[1..] == b;
    } else {
      assert (a + b)[1..] == a[1..] + b;
      JoinConcat(a[1..], b, sep);
    }
  }

  /** Compact keeps exactly the present parts, in order. */
  lemma {:induction false} CompactSnoc(parts: seq<Option<string>>, x: Option<string>)
    ensures Compact(parts + [x]) == Compact(parts) + (if x.Some? then [x.value] else [])
  {
    if |parts| > 0 {
      assert (parts + [x])[1..] == parts[1..] + [x];
      CompactSnoc(parts[1..], x);
    }
  }

  /** `s * n` is `n * |s|` characters long and each block is a copy of `s`. */
  lemma {:induction false} RepeatLength(s: string, n: nat)
    ensures |Repeat(s, n)| == n * |s|
  {
    if n > 0 {
      RepeatLength(s, n - 1);
    }
  }
}
