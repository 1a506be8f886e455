/** Go string operations the reference pipeline uses: trimming, ordering, joining and strconv.Atoi. */
module GoText {
  import DecimalText

  /** unicode.IsSpace. */
  predicate IsSpace(c: char) {
    '\t' <= c <= '\r' || c == ' ' || c == '\U{85}' || c == '\U{A0}' || c == '\U{1680}'
    || '\U{2000}' <= c <= '\U{200A}' || c == '\U{2028}' || c == '\U{2029}' || c == '\U{202F}' || c == '\U{205F}' || c == '\U{3000}'
  }

  function TrimSpace(s: string): string {
    if s == "" then ""
    else if IsSpace(s[0]) then TrimSpace(s[1..])
    else if IsSpace(s[|s| - 1]) then TrimSpace(s[..|s| - 1])
    else s
  }

  function FirstNonEmpty(values: seq<string>): string {
    if values == [] then "" else if values[0] != "" then values[0] else FirstNonEmpty(values[1..])
  }

  const MAX_INT := 0x7FFF_FFFF_FFFF_FFFF

  /** strconv.Atoi succeeds: an optional sign, then digits within the range of a 64-bit int. */
  predicate IsAtoi(s: string) {
    var signed := s != "" && (s[0] == '-' || s[0] == '+');
    var digits := if signed then s[1..] else s;
    digits != "" && DecimalText.AllDigits(digits) && DecimalText.DigitsValue(digits) <= (if signed && s[0] == '-' then MAX_INT + 1 else MAX_INT)
  }

  // ----- order -----

  /** Strings compare character by character, a proper prefix first. */
  predicate Less(a: string, b: string) {
    if b == "" then false
    else if a == "" then true
    else a[0] < b[0] || (a[0] == b[0] && Less(a[1..], b[1..]))
  }

  lemma {:induction false} LessIsTotal(a: string, b: string)
    ensures a == b || Less(a, b) || Less(b, a)
    ensures !(Less(a, b) && Less(b, a)) && !Less(a, a)
  {
    if a != "" && b != "" {
      LessIsTotal(a[1..], b[1..]);
      LessIsTotal(a[1..], a[1..]);
      assert a == [a[0]] + a[1..] && b == [b[0]] + b[1..];
    } else if a != "" {
      LessIsTotal(a[1..], a[1..]);
    }
  }

  lemma {:induction false} LessIsTransitive(a: string, b: string, c: string)
    requires !Less(b, a) && !Less(c, b)
    ensures !Less(c, a)
  {
    if a != "" && b != "" && c != "" {
      if a[0] == b[0] == c[0] { LessIsTransitive(a[1..], b[1..], c[1..]); }
    }
  }

  lemma {:induction false} CommonPrefix(p: string, a: string, b: string)
    ensures Less(p + a, p + b) == Less(a, b)
  {
    if p == "" {
      assert p + a == a && p + b == b;
    } else {
      CommonPrefix(p[1..], a, b);
      assert (p + a)[1..] == p[1..] + a && (p + b)[1..] == p[1..] + b;
    }
  }

  // ----- joining -----

  function JoinNul(parts: seq<string>): string {
    if parts == [] then "" else if |parts| == 1 then parts[0] else parts[0] + "\0" + JoinNul(parts[1..])
  }

  predicate NulFree(parts: seq<string>) { forall i :: 0 <= i < |parts| ==> '\0' !in parts[i] }

  /** NUL-free parts can be read back from their join. */
  lemma {:induction false} JoinIsInjective(a: seq<string>, b: seq<string>)
    requires |a| == |b| && NulFree(a) && NulFree(b) && JoinNul(a) == JoinNul(b)
    ensures a == b
  {
    if |a| == 1 {
      assert a == [a[0]] && b == [b[0]];
    } else if |a| > 1 {
      HeadOfJoin(a[0], JoinNul(a[1..]), b[0], JoinNul(b[1..]));
      assert forall i :: 0 <= i < |a[1..]| ==> a[1..][i] == a[i + 1] && b[1..][i] == b[i + 1];
      JoinIsInjective(a[1..], b[1..]);
      assert a == [a[0]] + a[1..] && b == [b[0]] + b[1..];
    }
  }

  lemma HeadOfJoin(x: string, xs: string, y: string, ys: string)
    requires '\0' !in x && '\0' !in y && x + "\0" + xs == y + "\0" + ys
    ensures x == y && xs == ys
  {
    var s := x + "\0" + xs;
    assert s[|x|] == '\0' && s[|y|] == '\0';
    assert forall i :: 0 <= i < |x| ==> s[i] == x[i];
    assert forall i :: 0 <= i < |y| ==> s[i] == y[i];
    assert s[..|x|] == x && s[..|y|] == y;
    assert s[|x| + 1..] == xs && s[|y| + 1..] == ys;
  }

  lemma {:induction false} JoinLast(init: seq<string>, last: string)
    requires init != []
    ensures JoinNul(init + [last]) == JoinNul(init) + "\0" + last
  {
    var all := init + [last];
    if |init| > 1 {
      JoinLast(init[1..], last);
      assert all[1..] == init[1..] + [last];
      assert JoinNul(all) == init[0] + "\0" + (JoinNul(init[1..]) + "\0" + last);
      assert init[0] + "\0" + (JoinNul(init[1..]) + "\0" + last) == (init[0] + "\0" + JoinNul(init[1..])) + "\0" + last;
    } else {
      assert all[1..] == [last];
    }
  }
}
