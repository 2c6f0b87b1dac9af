/**
 * String normalisation shared by the membership checks and the token
 * handler: ASCII lower-casing (SQLite's LOWER and, on ASCII input, Python's
 * str.lower) and the removal of every '@'.
 */
module Text {

  /** Lower-cases one character; only 'A'..'Z' change. */
  function LowerChar(c: char): (r: char)
    ensures !('A' <= r <= 'Z')
    ensures r != c ==> 'A' <= c <= 'Z' && r as int == c as int + 32
  {
    if 'A' <= c <= 'Z' then (c as int + 32) as char else c
  }

  /** Lower-cases a string character by character. */
  function Lower(s: string): (r: string)
    ensures |r| == |s|
    ensures forall i :: 0 <= i < |s| ==> r[i] == LowerChar(s[i])
  {
    if s == [] then [] else [LowerChar(s[0])] + Lower(s[1..])
  }

  /** Lower-casing never creates or removes an '@'. */
  lemma LowerKeepsAt(s: string)
    ensures '@' in Lower(s) <==> '@' in s
  {
    var r := Lower(s);
    if '@' in r {
      var i :| 0 <= i < |r| && r[i] == '@';
      assert LowerChar(s[i]) == '@';
    }
    if '@' in s {
      var i :| 0 <= i < |s| && s[i] == '@';
      assert r[i] == '@';
    }
  }

  /** `s.replace("@", "")`: every '@' is dropped, every other character kept. */
  function StripAt(s: string): (r: string)
    ensures '@' !in r
    ensures |r| <= |s|
    ensures multiset(r) == multiset(s)['@' := 0]
    ensures '@' !in s ==> r == s
  {
    if s == [] then []
    else
      assert s == [s[0]] + s[1..];
      if s[0] == '@' then StripAt(s[1..]) else [s[0]] + StripAt(s[1..])
  }

  /** Removing '@' works piece by piece, so the kept characters keep their order. */
  lemma {:induction false} StripAtAppend(a: string, b: string)
    ensures StripAt(a + b) == StripAt(a) + StripAt(b)
  {
    if a == [] {
      assert a + b == b;
    } else {
      assert (a + b)[0] == a[0];
      assert (a + b)[1..] == a[1..] + b;
      StripAtAppend(a[1..], b);
    }
  }

  /** Lower-casing and removing '@' can be done in either order. */
  lemma {:induction false} LowerStripAtCommute(s: string)
    ensures Lower(StripAt(s)) == StripAt(Lower(s))
  {
    if s != [] {
      var l := Lower(s);
      assert l[0] == LowerChar(s[0]);
      assert l[1..] == Lower(s[1..]);
      LowerStripAtCommute(s[1..]);
      if s[0] != '@' {
        var t := [s[0]] + StripAt(s[1..]);
        assert t[0] == s[0] && t[1..] == StripAt(s[1..]);
      }
    }
  }

  /** `s.replace("@", "").lower()`: the normal form of a Telegram handle. */
  function Normalize(s: string): (r: string)
    ensures '@' !in r
    ensures Lower(r) == r
    ensures |r| <= |s|
    ensures r == StripAt(Lower(s))
  {
    LowerKeepsAt(StripAt(s));
    LowerIdempotent(StripAt(s));
    LowerStripAtCommute(s);
    Lower(StripAt(s))
  }

  lemma LowerIdempotent(s: string)
    ensures Lower(Lower(s)) == Lower(s)
  {
  }

  /** Normalising an already normalised handle changes nothing. */
  lemma NormalizeIdempotent(s: string)
    ensures Normalize(Normalize(s)) == Normalize(s)
  {
  }

  lemma StripAtFoo()
    ensures StripAt("@Foo") == "Foo"
  {
    assert "@Foo"[1..] == "Foo";
    assert '@' !in "Foo";
  }

  lemma LowerFoo()
    ensures Lower("Foo") == "foo"
  {
    var l := Lower("Foo");
    assert l[0] == 'f' && l[1] == 'o' && l[2] == 'o';
  }

  /** The handle `@Foo` normalises to `foo`. */
  lemma NormalizeAtFoo()
    ensures Normalize("@Foo") == "foo"
  {
    StripAtFoo();
    LowerFoo();
  }
}
