/** C strings, and the keys of the account table: hash_f and comp_f of server_client_helper.c. */
module Names {
  import opened HashSpec
  import opened Sequences

  /** A char; plain char is signed. */
  type Byte = c: int | -128 <= c < 128

  const UNAME_MAX: nat := 10
  const HASH_MAX: nat := 100

  /** strnlen: the bytes before the first NUL, at most n. */
  function StrNLen(mem: seq<Byte>, n: nat): (len: nat)
    ensures len <= n && len <= |mem|
    ensures forall i :: 0 <= i < len ==> mem[i] != 0
    ensures len < n && len < |mem| ==> mem[len] == 0
  {
    if n == 0 || mem == [] || mem[0] == 0 then 0
    else
      assert forall i :: 1 <= i < |mem| ==> mem[i] == mem[1..][i - 1];
      1 + StrNLen(mem[1..], n - 1)
  }

  /** The string that starts a piece of memory, cut after n bytes. */
  function CStr(mem: seq<Byte>, n: nat): seq<Byte> {
    mem[..StrNLen(mem, n)]
  }

  /** May a string function look at up to n bytes of this memory? */
  predicate Readable(mem: seq<Byte>, n: nat) {
    |mem| >= n || 0 in mem
  }

  function Sum(s: seq<Byte>): int {
    if s == [] then 0 else Sum(s[..|s| - 1]) + s[|s| - 1]
  }

  /** Sum is the addition of all characters: nothing for no character, and each character once. */
  lemma {:induction false} SumConcat(a: seq<Byte>, b: seq<Byte>)
    ensures Sum([]) == 0 && Sum(a + b) == Sum(a) + Sum(b)
    ensures |b| == 1 ==> Sum(b) == b[0]
    decreases |b|
  {
    if b == [] {
      assert a + b == a;
    } else {
      var front := b[..|b| - 1];
      assert (a + b)[..|a + b| - 1] == a + front;
      SumConcat(a, front);
    }
  }

  function HashOf(mem: seq<Byte>, size: nat): nat {
    if size == 0 then 0 else (Sum(CStr(mem, HASH_MAX)) % UINT32) % size
  }

  /** hash_f: adds up the characters in 32 bits. */
  method HashF(mem: seq<Byte>, size: nat) returns (r: nat)
    requires size > 0 && Readable(mem, HASH_MAX)
    ensures r == HashOf(mem, size) == (Sum(CStr(mem, HASH_MAX)) % UINT32) % size
    ensures CStr(mem, HASH_MAX) == [] ==> r == 0
    ensures forall c :: CStr(mem, HASH_MAX) == [c] ==> r == (c % UINT32) % size
  {
    var hash: nat := 0;
    var i := 0;
    hide StrNLen;
    while i < StrNLen(mem, HASH_MAX)
      invariant i <= StrNLen(mem, HASH_MAX)
      invariant hash == Sum(mem[..i]) % UINT32
    {
      SumStep(mem, i);
      hash := (hash + mem[i]) % UINT32;
      i := i + 1;
    }
    SumConcat([], CStr(mem, HASH_MAX));
    return hash % size;
  }

  /** Reducing after every addition is reducing once. */
  lemma SumStep(mem: seq<Byte>, i: nat)
    requires i < |mem|
    ensures Sum(mem[..i + 1]) % UINT32 == (Sum(mem[..i]) % UINT32 + mem[i]) % UINT32
  {
    assert mem[..i + 1][..i] == mem[..i];
    var sum := Sum(mem[..i]);
    hide Sum;
  }

  /** A character as unsigned char. */
  function Unsigned(c: Byte): (u: nat)
    ensures u < 256 && (u == c || u == c + 256)
  {
    c % 256
  }

  /** strncmp. */
  function StrNCmp(a: seq<Byte>, b: seq<Byte>, n: nat): int
    requires Readable(a, n) && Readable(b, n)
    decreases n
  {
    if n == 0 then 0
    else if a[0] != b[0] then Unsigned(a[0]) - Unsigned(b[0])
    else if a[0] == 0 then 0
    else StrNCmp(a[1..], b[1..], n - 1)
  }

  /** Two strings compare equal exactly when they are the same up to n bytes. */
  lemma {:induction false} StrNCmpIsZeroIff(a: seq<Byte>, b: seq<Byte>, n: nat)
    requires Readable(a, n) && Readable(b, n)
    ensures StrNCmp(a, b, n) == 0 <==> CStr(a, n) == CStr(b, n)
    decreases n
  {
    CStrUnfold(a, n);
    CStrUnfold(b, n);
    hide CStr, StrNLen;
    if n > 0 && a[0] == b[0] != 0 {
      StrNCmpIsZeroIff(a[1..], b[1..], n - 1);
      SameRest([a[0]], CStr(a[1..], n - 1), CStr(b[1..], n - 1));
    } else if n > 0 && a[0] != b[0] {
      assert a[0] != 0 ==> CStr(a, n)[0] == a[0];
      assert b[0] != 0 ==> CStr(b, n)[0] == b[0];
    }
  }

  /** Strings are ordered by the first character in which they differ, as unsigned characters. */
  lemma {:induction false} StrNCmpFirstDifference(a: seq<Byte>, b: seq<Byte>, n: nat, i: nat)
    requires Readable(a, n) && Readable(b, n) && i < n && i < |a| && i < |b|
    requires a[..i] == b[..i] && 0 !in a[..i] && a[i] != b[i]
    ensures StrNCmp(a, b, n) == Unsigned(a[i]) - Unsigned(b[i])
    decreases n
  {
    if i > 0 {
      assert a[0] == a[..i][0] == b[..i][0] == b[0];
      assert a[1..][..i - 1] == a[..i][1..] && b[1..][..i - 1] == b[..i][1..];
      StrNCmpFirstDifference(a[1..], b[1..], n - 1, i - 1);
    }
  }

  lemma CStrUnfold(mem: seq<Byte>, n: nat)
    ensures n == 0 || mem == [] || mem[0] == 0 ==> CStr(mem, n) == []
    ensures n > 0 && mem != [] && mem[0] != 0 ==> CStr(mem, n) == [mem[0]] + CStr(mem[1..], n - 1)
  {
  }

  /** A string that ends within n bytes is the same wherever beyond n it is cut. */
  lemma {:induction false} CStrEnds(mem: seq<Byte>, n: nat, m: nat)
    requires n <= m && StrNLen(mem, n) < n && StrNLen(mem, n) < |mem|
    ensures CStr(mem, m) == CStr(mem, n)
  {
    if mem[0] != 0 {
      CStrEnds(mem[1..], n - 1, m - 1);
    }
  }

  // ----- Keys that compare equal hash alike: exactly those that end within the compared bytes -----

  function Padded(mem: seq<Byte>, tail: seq<Byte>): seq<Byte>
    requires |mem| >= UNAME_MAX
  {
    mem[..UNAME_MAX] + tail + [0]
  }

  lemma StrNLenIs(mem: seq<Byte>, n: nat, len: nat)
    requires len <= n && len <= |mem| && (len == n || len == |mem| || mem[len] == 0)
    requires forall i :: 0 <= i < len ==> mem[i] != 0
    ensures StrNLen(mem, n) == len
  {
    hide StrNLen;
  }

  lemma CStrOfPadded(mem: seq<Byte>, tail: seq<Byte>)
    requires |mem| >= UNAME_MAX && 0 !in mem[..UNAME_MAX] && 0 !in tail && |tail| < 10
    ensures CStr(Padded(mem, tail), UNAME_MAX) == mem[..UNAME_MAX]
    ensures CStr(Padded(mem, tail), HASH_MAX) == mem[..UNAME_MAX] + tail
  {
    var p := Padded(mem, tail);
    assert forall i :: 0 <= i < UNAME_MAX ==> p[i] == mem[..UNAME_MAX][i];
    assert forall i :: UNAME_MAX <= i < UNAME_MAX + |tail| ==> p[i] == tail[i - UNAME_MAX];
    assert p[UNAME_MAX + |tail|] == 0;
    StrNLenIs(p, UNAME_MAX, UNAME_MAX);
    StrNLenIs(p, HASH_MAX, UNAME_MAX + |tail|);
    hide StrNLen;
  }

  /** The table may be used with a key, whatever it is compared with, if and only if the key has its NUL within the
      10 bytes that are compared. */
  lemma HashAgreesIff(mem: seq<Byte>)
    requires |mem| >= UNAME_MAX && Readable(mem, HASH_MAX)
    ensures 0 in mem[..UNAME_MAX] <==>
      forall other, size ::
        Readable(other, HASH_MAX) && Readable(other, UNAME_MAX) && StrNCmp(mem, other, UNAME_MAX) == 0 ==>
          HashOf(mem, size) == HashOf(other, size)
  {
    if 0 in mem[..UNAME_MAX] {
      forall other, size |
        Readable(other, HASH_MAX) && Readable(other, UNAME_MAX) && StrNCmp(mem, other, UNAME_MAX) == 0
        ensures HashOf(mem, size) == HashOf(other, size)
      {
        EqualNamesHashAlike(mem, other);
      }
    } else {
      HashesBeyondDiffer(mem);
      var short, long := Padded(mem, []), Padded(mem, [1]);
      assert HashOf(mem, 2) != HashOf(short, 2) || HashOf(mem, 2) != HashOf(long, 2);
      hide HashOf, StrNCmp, Padded;
    }
  }

  /** Of two strings that go on differently after the compared bytes, one hashes differently. */
  lemma HashesBeyondDiffer(mem: seq<Byte>)
    requires |mem| >= UNAME_MAX && 0 !in mem[..UNAME_MAX]
    ensures var short, long := Padded(mem, []), Padded(mem, [1]);
      && Readable(short, HASH_MAX) && Readable(short, UNAME_MAX) && StrNCmp(mem, short, UNAME_MAX) == 0
      && Readable(long, HASH_MAX) && Readable(long, UNAME_MAX) && StrNCmp(mem, long, UNAME_MAX) == 0
      && HashOf(short, 2) != HashOf(long, 2)
  {
    hide StrNLen, Padded, Sum, StrNCmp, Readable, CStr;
    var front := mem[..UNAME_MAX];
    PaddedComparesEqual(mem, []);
    PaddedComparesEqual(mem, [1]);
    CStrOfPadded(mem, []);
    CStrOfPadded(mem, [1]);
    SumConcat(front, [1]);
    assert front + [] == front;
    ParityDiffers(Sum(front));
  }

  lemma ParityDiffers(sum: int)
    ensures (sum % UINT32) % 2 != ((sum + 1) % UINT32) % 2
  {
  }

  lemma PaddedComparesEqual(mem: seq<Byte>, tail: seq<Byte>)
    requires |mem| >= UNAME_MAX && 0 !in mem[..UNAME_MAX] && 0 !in tail && |tail| < 10
    ensures var p := Padded(mem, tail);
      Readable(p, HASH_MAX) && Readable(p, UNAME_MAX) && StrNCmp(mem, p, UNAME_MAX) == 0
  {
    var p, front := Padded(mem, tail), mem[..UNAME_MAX];
    assert p[UNAME_MAX + |tail|] == 0;
    CStrOfPadded(mem, tail);
    assert forall i :: 0 <= i < UNAME_MAX ==> mem[i] == front[i];
    StrNLenIs(mem, UNAME_MAX, UNAME_MAX);
    hide StrNLen, StrNCmp;
    StrNCmpIsZeroIff(mem, p, UNAME_MAX);
  }

  lemma EqualNamesHashAlike(a: seq<Byte>, b: seq<Byte>)
    requires |a| >= UNAME_MAX && 0 in a[..UNAME_MAX] && Readable(b, UNAME_MAX)
    requires StrNCmp(a, b, UNAME_MAX) == 0
    ensures CStr(a, HASH_MAX) == CStr(b, HASH_MAX)
  {
    StrNCmpIsZeroIff(a, b, UNAME_MAX);
    var k :| 0 <= k < UNAME_MAX && a[..UNAME_MAX][k] == 0;
    assert a[k] == 0;
    CStrEnds(a, UNAME_MAX, HASH_MAX);
    CStrEnds(b, UNAME_MAX, HASH_MAX);
  }

  // ----- The table of accounts -----

  /** The name field of a packet or of an account, with a string in it. */
  type NameField = f: seq<Byte> | |f| == UNAME_MAX && 0 in f witness [0, 0, 0, 0, 0, 0, 0, 0, 0, 0]

  type Name = seq<Byte>

  function NameOf(f: NameField): Name {
    CStr(f, UNAME_MAX)
  }

  /** The hash table's callbacks: hash_f and comp_f. */
  const ACCOUNT_OPS: KeyOps<NameField, Name> :=
    KeyOps((f: NameField, size: nat) => HashOf(f, size),
           (f: NameField, g: NameField) => StrNCmp(f, g, UNAME_MAX),
           NameOf)

  lemma AccountOpsLawful()
    ensures Lawful(ACCOUNT_OPS)
  {
    forall k: NameField, l: NameField
      ensures ACCOUNT_OPS.comp(k, l) == 0 <==> ACCOUNT_OPS.name(k) == ACCOUNT_OPS.name(l)
    {
      StrNCmpIsZeroIff(k, l, UNAME_MAX);
    }
    forall k: NameField, l: NameField, size: nat | ACCOUNT_OPS.name(k) == ACCOUNT_OPS.name(l)
      ensures ACCOUNT_OPS.hash(k, size) == ACCOUNT_OPS.hash(l, size)
    {
      StrNCmpIsZeroIff(k, l, UNAME_MAX);
      assert k[..UNAME_MAX] == k;
      EqualNamesHashAlike(k, l);
    }
  }

  // ----- A rehash splits a bucket in two -----

  lemma {:induction false} MulAtLeast(a: nat, c: nat)
    requires a > 0
    ensures a * c >= c
  {
    if a > 1 {
      MulAtLeast(a - 1, c);
      assert a * c == (a - 1) * c + c;
    }
  }

  lemma RemainderIs(x: nat, c: nat, q: nat, r: nat)
    requires x == q * c + r && r < c
    ensures x % c == r
  {
    var q', r' := x / c, x % c;
    assert x == q' * c + r' && r' < c;
    if q > q' {
      MulAtLeast(q - q', c);
    } else if q < q' {
      MulAtLeast(q' - q, c);
    }
  }

  lemma DivMod(x: nat, c: nat)
    requires c > 0
    ensures x == (x / c) * c + x % c && x / c >= 0 && 0 <= x % c < c
  {
  }

  lemma Factors(q: nat, c: nat, q': nat)
    ensures (2 * q + q') * c == q * (2 * c) + q' * c
  {
  }

  lemma RemainderOfDouble(x: nat, c: nat)
    requires c > 0
    ensures (x % (2 * c)) % c == x % c
  {
    var r := x % (2 * c);
    var q, q' := x / (2 * c), r / c;
    DivMod(x, 2 * c);
    DivMod(r, c);
    Factors(q, c, q');
    RemainderIs(x, c, 2 * q + q', r % c);
  }

  /** hash_f for twice the buckets, reduced to the old number, is hash_f for the old number. */
  lemma HashOfDouble(mem: seq<Byte>, c: nat)
    requires 0 < c && 2 * c < UINT32
    ensures HashOf(mem, 2 * c) % c == HashOf(mem, c)
  {
    RemainderOfDouble(Sum(CStr(mem, HASH_MAX)) % UINT32, c);
  }

  /** A rehash sends an entry of bucket i to bucket i or to bucket i + capacity. */
  lemma RehashSplitsBucket<V>(t: Table<NameField, V>, e: Entry<NameField, V>, i: nat, j: nat)
    requires Placed(ACCOUNT_OPS, t.chains) && i < |t.chains| && 2 * |t.chains| < UINT32
    requires e in t.chains[i]
    ensures var after := HashSpec.Rehash(ACCOUNT_OPS, t).chains;
      j < |after| && e in after[j] ==> j == i || j == i + |t.chains|
  {
    var c, after := |t.chains|, HashSpec.Rehash(ACCOUNT_OPS, t).chains;
    NoOverflow(c);
    RehashKeeps(ACCOUNT_OPS, t);
    assert Bucket(ACCOUNT_OPS, e.key, c) == i;
    assert |after| == 2 * c;
    hide HashSpec.Rehash, Bag, Bucket, Doubled, HashOf;
    assert j < |after| && e in after[j] ==> Bucket(ACCOUNT_OPS, e.key, 2 * c) == j;
    hide *;
    BucketIsHash(e.key, c);
    BucketIsHash(e.key, 2 * c);
    HashOfDouble(e.key, c);
    HalfOf(HashOf(e.key, 2 * c), c);
  }

  lemma NoOverflow(c: nat)
    requires 2 * c < UINT32
    ensures Doubled(c) == 2 * c
  {
  }

  lemma BucketIsHash(f: NameField, c: nat)
    requires c > 0
    ensures Bucket(ACCOUNT_OPS, f, c) == HashOf(f, c) < c
  {
    hide CStr, Sum;
    RemainderIs(HashOf(f, c), c, 0, HashOf(f, c));
  }

  lemma HalfOf(j: nat, c: nat)
    requires 0 < c && j < 2 * c
    ensures j == j % c || j == j % c + c
  {
    if j < c {
      RemainderIs(j, c, 0, j);
    } else {
      RemainderIs(j, c, 1, j - c);
    }
  }
}
