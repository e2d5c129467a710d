/**
  Where a user's vector store lives: the collection name
  `user_{user_id}_docs` and the persist directory `<base>/user_{user_id}`,
  built with Python's `str(int)` and `os.path.join`.
 */
module Naming {

  const COLLECTION_PREFIX: string := "user_"
  const COLLECTION_SUFFIX: string := "_docs"
  const PERSIST_PREFIX: string := "user_"

  predicate IsDigit(c: char) { '0' <= c <= '9' }

  function DigitChar(d: int): (c: char)
    requires 0 <= d < 10
    ensures IsDigit(c)
  {
    ('0' as int + d) as char
  }

  function DigitValue(c: char): (d: int)
    requires IsDigit(c)
    ensures 0 <= d < 10
  {
    c as int - '0' as int
  }

  /** The decimal digits of `n`, most significant first, with no leading zero. */
  function NatToString(n: nat): (s: string)
    ensures |s| >= 1 && forall k :: 0 <= k < |s| ==> IsDigit(s[k])
    ensures s[0] == '0' <==> n == 0
    decreases n
  {
    if n < 10 then [DigitChar(n)] else NatToString(n / 10) + [DigitChar(n % 10)]
  }

  /** `str(i)` for a Python integer. */
  function IntToString(i: int): (s: string)
    ensures |s| >= 1 && (s[0] == '-' <==> i < 0)
  {
    if i < 0 then "-" + NatToString(-i) else NatToString(i)
  }

  /** Reads back a string of decimal digits. */
  function ParseNat(s: string): nat
    requires forall k :: 0 <= k < |s| ==> IsDigit(s[k])
    decreases |s|
  {
    if s == [] then 0 else ParseNat(s[..|s| - 1]) * 10 + DigitValue(s[|s| - 1])
  }

  /** Reading back the decimal form of a number gives the number. */
  lemma {:induction false} ParseNatToString(n: nat)
    ensures ParseNat(NatToString(n)) == n
    decreases n
  {
    if n >= 10 {
      var s := NatToString(n);
      ParseNatToString(n / 10);
      assert s[..|s| - 1] == NatToString(n / 10);
    }
  }

  /** Distinct integers have distinct decimal forms. */
  lemma IntToStringInjective(a: int, b: int)
    requires IntToString(a) == IntToString(b)
    ensures a == b
  {
    var s := IntToString(a);
    assert (a < 0) == (b < 0) by {
      assert s[0] == '-' <==> a < 0;
      assert IntToString(b)[0] == '-' <==> b < 0;
    }
    if a < 0 {
      assert NatToString(-a) == NatToString(-b) by {
        assert NatToString(-a) == s[1..];
        assert NatToString(-b) == IntToString(b)[1..];
      }
      assert -a == ParseNat(NatToString(-a)) by { ParseNatToString(-a); }
      assert -b == ParseNat(NatToString(-b)) by { ParseNatToString(-b); }
    } else {
      assert a == ParseNat(NatToString(a)) by { ParseNatToString(a); }
      assert b == ParseNat(NatToString(b)) by { ParseNatToString(b); }
    }
  }

  /** `COLLECTION_NAME_TEMPLATE.format(user_id=userId)`. */
  function CollectionName(userId: int): string {
    COLLECTION_PREFIX + IntToString(userId) + COLLECTION_SUFFIX
  }

  /** `os.path.join(a, b)` for a relative `b`: a `/` is inserted unless `a` is empty or already ends in one. */
  function PathJoin(a: string, b: string): (p: string)
    ensures |p| >= |b| && p[|p| - |b|..] == b
  {
    if a == [] || a[|a| - 1] == '/' then a + b else a + "/" + b
  }

  /** `os.path.join(VECTOR_STORE_BASE_DIR, f"user_{userId}")`. */
  function PersistDir(baseDir: string, userId: int): string {
    PathJoin(baseDir, PERSIST_PREFIX + IntToString(userId))
  }

  /** Two users never share a collection name, so they never share a collection. */
  lemma CollectionNameInjective(a: int, b: int)
    requires CollectionName(a) == CollectionName(b)
    ensures a == b
  {
    var sa, sb := IntToString(a), IntToString(b);
    assert |sa| == |sb|;
    assert sa == CollectionName(a)[|COLLECTION_PREFIX|..|COLLECTION_PREFIX| + |sa|];
    assert sb == CollectionName(b)[|COLLECTION_PREFIX|..|COLLECTION_PREFIX| + |sb|];
    IntToStringInjective(a, b);
  }

  /** Two users under the same base directory never share a persist directory. */
  lemma PersistDirInjective(baseDir: string, a: int, b: int)
    requires PersistDir(baseDir, a) == PersistDir(baseDir, b)
    ensures a == b
  {
    var sa, sb := IntToString(a), IntToString(b);
    var pa, pb := PERSIST_PREFIX + sa, PERSIST_PREFIX + sb;
    assert |pa| == |pb|;
    assert pa[|PERSIST_PREFIX|..] == sa;
    assert pb[|PERSIST_PREFIX|..] == sb;
    IntToStringInjective(a, b);
  }
}
