/** Byte strings: the order of memcmp, prefixes, and searching for a byte. */
module Bytes {

  type Byte = b: int | 0 <= b < 256

  type Text = seq<Byte>

  const NUL: Byte := 0
  const NEWLINE: Byte := 10
  const SPACE: Byte := 32
  const PLUS: Byte := 43
  const MINUS: Byte := 45
  const SLASH: Byte := 47
  const ZERO: Byte := 48

  /** isspace of the C library, which strtol goes by. */
  predicate IsSpace(b: Byte) { b == 32 || 9 <= b <= 13 }

  /** `s` sorts before `t`, byte by byte, a proper prefix before what it is a prefix of. */
  predicate Before(s: Text, t: Text) {
    t != [] && (s == [] || s[0] < t[0] || (s[0] == t[0] && Before(s[1..], t[1..])))
  }

  lemma {:induction false} BeforeTotal(s: Text, t: Text)
    ensures Before(s, t) || s == t || Before(t, s)
    ensures !(Before(s, t) && Before(t, s))
    ensures !Before(s, s)
  {
    if s != [] && t != [] {
      assert s == [s[0]] + s[1..] && t == [t[0]] + t[1..];
      BeforeTotal(s[1..], t[1..]);
    }
    if s != [] { BeforeTotal(s[1..], s[1..]); }
  }

  lemma {:induction false} BeforeTrans(s: Text, t: Text, u: Text)
    requires Before(s, t) && Before(t, u)
    ensures Before(s, u)
  {
    if s != [] && s[0] == t[0] == u[0] {
      BeforeTrans(s[1..], t[1..], u[1..]);
    }
  }

  predicate HasPrefix<T(==)>(s: seq<T>, p: seq<T>) {
    |p| <= |s| && s[..|p|] == p
  }

  lemma {:induction false} PrefixTail(s: Text, p: Text)
    requires p != [] && s != []
    ensures HasPrefix(s, p) <==> s[0] == p[0] && HasPrefix(s[1..], p[1..])
  {
    if HasPrefix(s, p) {
      assert s[1..][..|p| - 1] == s[..|p|][1..];
    }
    if s[0] == p[0] && HasPrefix(s[1..], p[1..]) {
      assert s[..|p|] == [s[0]] + s[1..][..|p| - 1];
      assert p == [p[0]] + p[1..];
    }
  }

  /** What sorts between two strings with a common prefix has that prefix as well. */
  lemma {:induction false} PrefixConvex(p: Text, s: Text, t: Text, u: Text)
    requires HasPrefix(s, p) && HasPrefix(u, p) && Before(s, t) && Before(t, u)
    ensures HasPrefix(t, p)
  {
    if p != [] {
      PrefixTail(s, p);
      PrefixTail(u, p);
      PrefixTail(t, p);
      PrefixConvex(p[1..], s[1..], t[1..], u[1..]);
    }
  }

  /** A common prefix does not count. */
  lemma {:induction false} BeforeWithoutPrefix(p: Text, s: Text, t: Text)
    ensures Before(p + s, p + t) <==> Before(s, t)
  {
    if p == [] {
      assert p + s == s && p + t == t;
    } else {
      assert (p + s)[1..] == p[1..] + s && (p + t)[1..] == p[1..] + t;
      BeforeWithoutPrefix(p[1..], s, t);
    }
  }

  /** strchrnul: where `b` first occurs, or the length. */
  function IndexOf(s: Text, b: Byte): (n: nat)
    ensures n <= |s| && (n < |s| ==> s[n] == b)
  {
    if s == [] || s[0] == b then 0 else 1 + IndexOf(s[1..], b)
  }

  lemma {:induction false} NotBefore(s: Text, b: Byte, i: nat)
    requires i < IndexOf(s, b)
    ensures s[i] != b
  {
    if i > 0 { NotBefore(s[1..], b, i - 1); }
  }

  lemma {:induction false} IndexOfUnique(s: Text, b: Byte, n: nat)
    requires n <= |s| && (n < |s| ==> s[n] == b) && forall i :: 0 <= i < n ==> s[i] != b
    ensures IndexOf(s, b) == n
  {
    if n > 0 {
      assert s[0] != b;
      IndexOfUnique(s[1..], b, n - 1);
    }
  }
}
