/**
 Strings and keys.

 A Go string that came through protobuf is valid UTF-8, and is modelled by its code points.  The
 byte order of valid UTF-8 is the order of the code points, and one such string is a byte prefix
 of another exactly when it is a prefix in code points, so BoltDB's key order and
 `bytes.HasPrefix` are `Less` and `<=` on sequences of characters.
 */
module Text {
  import opened Order

  /** `a` and `b` agree before position `i`, and there `a` ends or has the smaller character. */
  predicate LessAt(a: string, b: string, i: nat) {
    i <= |a| && i < |b| && (forall j | 0 <= j < i :: a[j] == b[j]) && (i < |a| ==> a[i] < b[i])
  }

  /** `bytes.Compare(a, b) < 0` */
  predicate Less(a: string, b: string) {
    exists i | 0 <= i < |b| :: LessAt(a, b, i)
  }

  /** `unicode.IsSpace` */
  predicate IsSpace(c: char) {
    var n := c as int;
    || 9 <= n <= 13 || n == 0x20 || n == 0x85 || n == 0xA0
    || n == 0x1680 || 0x2000 <= n <= 0x200A || n == 0x2028 || n == 0x2029
    || n == 0x202F || n == 0x205F || n == 0x3000
  }

  /** `strings.TrimSpace(s) != ""` */
  predicate IsSet(s: string) {
    exists i :: 0 <= i < |s| && !IsSpace(s[i])
  }

  lemma LessTransitive(a: string, b: string, c: string)
    requires Less(a, b) && Less(b, c)
    ensures Less(a, c)
  {
    var i :| 0 <= i < |b| && LessAt(a, b, i);
    var j :| 0 <= j < |c| && LessAt(b, c, j);
    var m := if i < j then i else j;
    assert LessAt(a, c, m);
  }

  /** The length of the longest common prefix. */
  function Common(a: string, b: string): (n: nat)
    ensures n <= |a| && n <= |b| && forall j :: 0 <= j < n ==> a[j] == b[j]
    ensures n < |a| && n < |b| ==> a[n] != b[n]
  {
    if a == "" || b == "" || a[0] != b[0] then 0 else
    var n := Common(a[1..], b[1..]);
    assert forall j :: 0 < j <= n ==> a[j] == a[1..][j - 1] == b[1..][j - 1] == b[j];
    n + 1
  }

  lemma LessTotal(a: string, b: string)
    ensures a == b || Less(a, b) || Less(b, a)
  {
    var n := Common(a, b);
    assert n == |a| == |b| || LessAt(a, b, n) || LessAt(b, a, n);
  }

  lemma LessStrictTotal()
    ensures StrictTotal(Less)
  {
    assert forall a: string :: !Less(a, a);
    forall a, b, c | Less(a, b) && Less(b, c) ensures Less(a, c) { LessTransitive(a, b, c); }
    forall a, b ensures a == b || Less(a, b) || Less(b, a) { LessTotal(a, b); }
  }

  /** What the order is: a prefix comes first, and otherwise the first differing character decides. */
  lemma LessDecided(p: string, c: char, a: string, d: char, b: string)
    ensures Less(p, p + [c] + a)
    ensures c < d ==> Less(p + [c] + a, p + [d] + b)
  {
    assert LessAt(p, p + [c] + a, |p|);
    assert c < d ==> LessAt(p + [c] + a, p + [d] + b, |p|);
  }

  /** A key is never below its own prefix. */
  lemma PrefixNotAbove(p: string, k: string)
    requires p <= k
    ensures !Less(k, p)
  {
  }

  /** The keys with a given prefix are contiguous in key order. */
  lemma PrefixConvex(p: string, a: string, b: string, c: string)
    requires p <= a && p <= c
    requires !Less(b, a) && !Less(c, b)
    ensures p <= b
  {
    var n := Common(p, b);
    assert n < |p| ==> LessAt(b, a, n) || LessAt(c, b, n);
  }

  // ---- Splitting at separators ----

  /** A separator that does not occur in the head can only be found where it was put. */
  lemma SplitUnique(a: string, b: string, a': string, b': string, c: char)
    requires c !in a && c !in a'
    requires a + [c] + b == a' + [c] + b'
    ensures a == a' && b == b'
  {
    var s := a + [c] + b;
    assert s[|a|] == c && s[|a'|] == c;
    assert forall k :: 0 <= k < |a| ==> s[k] == a[k];
    assert forall k :: 0 <= k < |a'| ==> s[k] == a'[k];
    assert a == s[..|a|] && a' == s[..|a'|];
    assert b == s[|a| + 1..] && b' == s[|a'| + 1..];
  }

  /** And a separator that does not occur in the rest. */
  lemma SplitUniqueLast(a: string, b: string, a': string, b': string, c: char)
    requires c !in b && c !in b'
    requires a + [c] + b == a' + [c] + b'
    ensures a == a' && b == b'
  {
    var s := a + [c] + b;
    assert s[|a|] == c && s[|a'|] == c;
    assert forall k :: |a| < k < |s| ==> s[k] == b[k - |a| - 1];
    assert forall k :: |a'| < k < |s| ==> s[k] == b'[k - |a'| - 1];
    assert a == s[..|a|] && a' == s[..|a'|];
    assert b == s[|a| + 1..] && b' == s[|a'| + 1..];
  }

  /** The same as `SplitUnique`, when the rest of one string need only start with the rest of the other. */
  lemma SplitPrefix(a: string, b: string, a': string, b': string, c: char)
    requires c !in a && c !in a'
    ensures a + [c] + b <= a' + [c] + b' <==> a == a' && b <= b'
  {
    var p, s := a + [c] + b, a' + [c] + b';
    if p <= s {
      assert p == s[..|p|];
      assert p[|a|] == c && s[|a|] == p[|a|];
      assert forall k :: 0 <= k < |a'| ==> s[k] == a'[k];
      assert forall k :: 0 <= k < |a| ==> s[k] == p[k] == a[k];
      assert s[|a'|] == c;
      assert a == p[..|a|] && a' == s[..|a'|];
      assert b == p[|a| + 1..] && b' == s[|a| + 1..];
    }
    if a == a' && b <= b' {
      assert b == b'[..|b|];
      assert p == s[..|p|];
    }
  }

  // ---- The smallest of a set ----

  ghost predicate IsLeast(s: set<string>, k: string) {
    k in s && forall x :: x in s ==> x == k || Less(k, x)
  }

  lemma {:induction false} LeastExists(s: set<string>)
    requires s != {}
    ensures exists k :: IsLeast(s, k)
    decreases |s|
  {
    var x :| x in s;
    var rest := s - {x};
    assert s == rest + {x};
    if rest == {} {
      assert IsLeast(s, x);
    } else {
      LeastExists(rest);
      var k :| IsLeast(rest, k);
      LessTotal(x, k);
      if Less(x, k) {
        forall y | y in rest ensures Less(x, y) {
          if y != k { LessTransitive(x, k, y); }
        }
        assert IsLeast(s, x);
      } else {
        assert IsLeast(s, k);
      }
    }
  }

  function Least(s: set<string>): (k: string)
    requires s != {}
    ensures IsLeast(s, k)
  {
    LeastExists(s);
    LessStrictTotal();
    assert exists k :: k in s && forall x :: x in s ==> x == k || Less(k, x) by {
      var k :| IsLeast(s, k);
    }
    var k :| k in s && forall x :: x in s ==> x == k || Less(k, x);
    k
  }
}
