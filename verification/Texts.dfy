/** Python's order on text, which sorts transaction hashes, references and hash lists. */
module Texts {
  import opened Dedupe

  /** Python's order on text. */
  predicate TextLess(s: string, t: string) {
    t != "" && (s == "" || s[0] < t[0] || (s[0] == t[0] && TextLess(s[1..], t[1..])))
  }

  lemma {:induction false} TextLessIrreflexive(s: string)
    ensures !TextLess(s, s)
  {
    if s != "" { TextLessIrreflexive(s[1..]); }
  }

  lemma {:induction false} TextLessTransitive(s: string, t: string, u: string)
    requires TextLess(s, t) && TextLess(t, u)
    ensures TextLess(s, u)
  {
    if s != "" && s[0] == t[0] == u[0] { TextLessTransitive(s[1..], t[1..], u[1..]); }
  }

  lemma {:induction false} TextLessTotal(s: string, t: string)
    ensures TextLess(s, t) || TextLess(t, s) || s == t
  {
    if s != "" && t != "" && s[0] == t[0] {
      TextLessTotal(s[1..], t[1..]);
      assert s == [s[0]] + s[1..] && t == [t[0]] + t[1..];
    }
  }

  lemma TextLessStrictWeak()
    ensures StrictWeak(TextLess)
  {
    forall a ensures !TextLess(a, a) { TextLessIrreflexive(a); }
    forall a, b, c | TextLess(a, b) && TextLess(b, c) ensures TextLess(a, c) { TextLessTransitive(a, b, c); }
    forall a, b, c | !TextLess(a, b) && !TextLess(b, c) ensures !TextLess(a, c) {
      TextLessTotal(a, b);
      TextLessTotal(b, c);
      if TextLess(a, c) {
        if TextLess(b, a) { TextLessTransitive(b, a, c); }
      }
    }
  }

  /** The order in terms of positions: `s` sorts before `t` exactly if, after some common beginning, `s` ends before
      `t` does or has the smaller character. */
  lemma {:induction false} TextLessAtFirstDifference(s: string, t: string)
    ensures TextLess(s, t)
      <==> exists i :: 0 <= i <= |s| && i < |t| && s[..i] == t[..i] && (i < |s| ==> s[i] < t[i])
  {
    forall i | 0 < i <= |s| && i < |t| && s[..i] == t[..i] ensures s[0] == t[0] {
      assert s[..i][0] == t[..i][0];
    }
    if t != "" && s != "" && s[0] == t[0] {
      TextLessAtFirstDifference(s[1..], t[1..]);
      if TextLess(s[1..], t[1..]) {
        var i :| 0 <= i <= |s[1..]| && i < |t[1..]| && s[1..][..i] == t[1..][..i]
          && (i < |s[1..]| ==> s[1..][i] < t[1..][i]);
        assert s[..i + 1] == [s[0]] + s[1..][..i] && t[..i + 1] == [t[0]] + t[1..][..i];
      }
      if i :| 0 <= i <= |s| && i < |t| && s[..i] == t[..i] && (i < |s| ==> s[i] < t[i]) {
        assert i > 0 && s[1..][..i - 1] == s[..i][1..] && t[1..][..i - 1] == t[..i][1..];
      }
    } else if TextLess(s, t) {
      assert s[..0] == t[..0];
    }
  }
}
