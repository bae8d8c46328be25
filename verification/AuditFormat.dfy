/** The text an audit row's HMAC is computed over: fields joined with '|'. */
module AuditFormat {

  const BAR: char := '|'

  function Join(parts: seq<string>): string {
    if |parts| == 0 then ""
    else if |parts| == 1 then parts[0]
    else parts[0] + [BAR] + Join(parts[1..])
  }

  predicate BarFree(parts: seq<string>) {
    forall i | 0 <= i < |parts| :: BAR !in parts[i]
  }

  /** If one split point lies before the other, the longer first part contains a separator. */
  lemma EarlierSplit(a: string, x: string, b: string, y: string)
    requires a + [BAR] + x == b + [BAR] + y && |a| < |b|
    ensures BAR in b && BAR in x
  {
    assert (a + [BAR] + x)[|a|] == (b + [BAR] + y)[|a|] == b[|a|];
    assert (b + [BAR] + y)[|b|] == (a + [BAR] + x)[|b|] == x[|b| - |a| - 1];
  }

  lemma SameSplit(a: string, x: string, b: string, y: string)
    requires a + [BAR] + x == b + [BAR] + y && |a| == |b|
    ensures a == b && x == y
  {
    var s, t := a + [BAR] + x, b + [BAR] + y;
    assert a == s[..|a|] && b == t[..|b|];
    assert x == s[|a| + 1..] && y == t[|b| + 1..];
  }

  /** Splitting at the first separator is unambiguous. */
  lemma SplitFirst(a: string, x: string, b: string, y: string)
    requires BAR !in a && BAR !in b
    requires a + [BAR] + x == b + [BAR] + y
    ensures a == b && x == y
  {
    if |a| < |b| {
      EarlierSplit(a, x, b, y);
    } else if |b| < |a| {
      EarlierSplit(b, y, a, x);
    } else {
      SameSplit(a, x, b, y);
    }
  }

  /** Splitting at the last separator is unambiguous. */
  lemma SplitLast(x: string, a: string, y: string, b: string)
    requires BAR !in a && BAR !in b
    requires x + [BAR] + a == y + [BAR] + b
    ensures x == y && a == b
  {
    if |x| < |y| {
      EarlierSplit(x, a, y, b);
    } else if |y| < |x| {
      EarlierSplit(y, b, x, a);
    } else {
      SameSplit(x, a, y, b);
    }
  }

  lemma {:induction false} JoinHasBar(parts: seq<string>)
    requires |parts| >= 2
    ensures BAR in Join(parts)
  {
    assert Join(parts)[|parts[0]|] == BAR;
  }

  /** Fields without the separator can be read back from the joined text, so two
      field lists of different length (the 7-field and the 4-field format)
      never produce the same text. */
  lemma {:induction false} JoinInjective(ps: seq<string>, qs: seq<string>)
    requires |ps| >= 1 && |qs| >= 1
    requires BarFree(ps) && BarFree(qs)
    requires Join(ps) == Join(qs)
    ensures ps == qs
    decreases |ps|
  {
    if |ps| == 1 {
      if |qs| >= 2 { JoinHasBar(qs); }
      assert ps[0] == qs[0];
    } else if |qs| == 1 {
      JoinHasBar(ps);
    } else {
      SplitFirst(ps[0], Join(ps[1..]), qs[0], Join(qs[1..]));
      JoinInjective(ps[1..], qs[1..]);
      assert ps == [ps[0]] + ps[1..] && qs == [qs[0]] + qs[1..];
    }
  }

  /** The joined text is everything but the last field, the separator, and the last field. */
  lemma {:induction false} JoinSnoc(init: seq<string>, last: string)
    requires |init| >= 1
    ensures Join(init + [last]) == Join(init) + [BAR] + last
  {
    var all := init + [last];
    if |init| == 1 {
      assert all[1..] == [last];
    } else {
      assert all[1..] == init[1..] + [last];
      JoinSnoc(init[1..], last);
      assert Join(all) == init[0] + [BAR] + (Join(init[1..]) + [BAR] + last);
      assert Join(all) == (init[0] + [BAR] + Join(init[1..])) + [BAR] + last;
    }
  }

  /** Whatever the other fields hold, a last field without the separator can be read back. */
  lemma LastPartRecovered(ps: seq<string>, p: string, qs: seq<string>, q: string)
    requires |ps| >= 1 && |qs| >= 1
    requires BAR !in p && BAR !in q
    requires Join(ps + [p]) == Join(qs + [q])
    ensures p == q && Join(ps) == Join(qs)
  {
    JoinSnoc(ps, p);
    JoinSnoc(qs, q);
    SplitLast(Join(ps), p, Join(qs), q);
  }
}
