/** The XOR metric and distance ranking of mesh-transport/src/kademlia_routing.rs. */
module XorMetric {
  import opened Common

  type NodeId = s: seq<U8> | |s| == 32
    witness [0, 0, 0, 0, 0, 0, 0, 0, 0, 0, 0, 0, 0, 0, 0, 0, 0, 0, 0, 0, 0, 0, 0, 0, 0, 0, 0, 0, 0, 0, 0, 0]

  datatype Contact = Contact(id: NodeId, endpoint: string, lastSeen: U64)

  // ---------- exclusive or on bytes ----------

  /** Bit-wise exclusive or of the n low bits. */
  function Xor(a: nat, b: nat, n: nat): nat {
    if n == 0 then 0 else (a % 2 + b % 2) % 2 + 2 * Xor(a / 2, b / 2, n - 1)
  }

  lemma {:induction false} XorBounded(a: nat, b: nat, n: nat)
    ensures Xor(a, b, n) < Pow2(n)
    ensures Xor(a, b, n) == Xor(b, a, n)
    ensures Xor(a, a, n) == 0
  {
    if n > 0 { XorBounded(a / 2, b / 2, n - 1); }
  }

  lemma {:induction false} XorCancel(t: nat, x: nat, y: nat, n: nat)
    requires x < Pow2(n) && y < Pow2(n) && Xor(t, x, n) == Xor(t, y, n)
    ensures x == y
  {
    if n > 0 {
      XorCancel(t / 2, x / 2, y / 2, n - 1);
      assert x == 2 * (x / 2) + x % 2 && y == 2 * (y / 2) + y % 2;
    }
  }

  lemma Pow2Of8()
    ensures Pow2(8) == 256
  {
    assert Pow2(4) == 16;
  }

  function Xor8(a: U8, b: U8): U8 {
    XorBounded(a, b, 8);
    Pow2Of8();
    Xor(a, b, 8)
  }

  // ---------- distance ----------

  function Distance(a: NodeId, b: NodeId): NodeId {
    seq(32, i requires 0 <= i < 32 => Xor8(a[i], b[i]))
  }

  /** `xor_distance`. */
  method XorDistance(a: NodeId, b: NodeId) returns (d: NodeId)
    ensures d == Distance(a, b)
  {
    var out: seq<U8> := [];
    for i := 0 to 32
      invariant |out| == i && forall j | 0 <= j < i :: out[j] == Xor8(a[j], b[j])
    {
      out := out + [Xor8(a[i], b[i])];
    }
    d := out;
  }

  /** Big-endian value of a byte string. */
  function Value(d: seq<U8>): nat {
    if d == [] then 0 else d[0] * Pow2(8 * (|d| - 1)) + Value(d[1..])
  }

  function Pow2(n: nat): (p: nat)
    ensures p >= 1
  {
    if n == 0 then 1 else 2 * Pow2(n - 1)
  }

  lemma {:induction false} Pow2Add(a: nat, b: nat)
    ensures Pow2(a + b) == Pow2(a) * Pow2(b)
  {
    if a > 0 {
      Pow2Add(a - 1, b);
      assert a + b - 1 == (a - 1) + b;
    }
  }

  lemma {:induction false} ValueBound(d: seq<U8>)
    ensures Value(d) < Pow2(8 * |d|)
  {
    if d != [] {
      ValueBound(d[1..]);
      Pow2Add(8, 8 * (|d| - 1));
      Pow2Of8();
      MulMono(d[0], 255, Pow2(8 * (|d| - 1)));
    }
  }

  /** `cmp_distance`: byte-wise comparison, most significant byte first. */
  predicate LexLess(a: seq<U8>, b: seq<U8>)
    requires |a| == |b|
  {
    a != [] && (a[0] < b[0] || (a[0] == b[0] && LexLess(a[1..], b[1..])))
  }

  /** A leading digit outweighs everything below it. */
  lemma DigitLess(x: nat, y: nat, p: nat, u: nat, v: nat)
    requires x < y && u < p && v < p
    ensures x * p + u < y * p + v
  {
    MulMono(x + 1, y, p);
    assert (x + 1) * p == x * p + p;
  }

  /** Byte-wise order is the order of the big-endian values. */
  lemma {:induction false} LexIsNumeric(a: seq<U8>, b: seq<U8>)
    requires |a| == |b|
    ensures LexLess(a, b) <==> Value(a) < Value(b)
    ensures Value(a) == Value(b) ==> a == b
  {
    if a != [] {
      LexIsNumeric(a[1..], b[1..]);
      ValueBound(a[1..]);
      ValueBound(b[1..]);
      var p := Pow2(8 * (|a| - 1));
      if a[0] < b[0] {
        DigitLess(a[0], b[0], p, Value(a[1..]), Value(b[1..]));
      } else if b[0] < a[0] {
        DigitLess(b[0], a[0], p, Value(b[1..]), Value(a[1..]));
      }
      assert a == [a[0]] + a[1..] && b == [b[0]] + b[1..];
    }
  }

  /** The metric as a number. */
  function Dist(target: NodeId, id: NodeId): nat {
    Value(Distance(target, id))
  }

  /** Different ids are at different distances, so ranking has no ties. */
  lemma DistInjective(target: NodeId, a: NodeId, b: NodeId)
    ensures Dist(target, a) == Dist(target, b) <==> a == b
  {
    LexIsNumeric(Distance(target, a), Distance(target, b));
    if Distance(target, a) == Distance(target, b) {
      forall i | 0 <= i < 32 ensures a[i] == b[i] {
        assert Distance(target, a)[i] == Distance(target, b)[i];
        Pow2Of8();
        XorCancel(target[i], a[i], b[i], 8);
      }
    }
  }

  /** The metric is symmetric, and zero only at the target itself. */
  lemma MetricLaws(a: NodeId, b: NodeId)
    ensures Distance(a, b) == Distance(b, a)
    ensures Dist(a, b) == 0 <==> a == b
  {
    forall i | 0 <= i < 32 ensures Xor8(a[i], b[i]) == Xor8(b[i], a[i]) {
      XorBounded(a[i], b[i], 8);
    }
    assert Distance(a, b) == Distance(b, a);
    forall i | 0 <= i < 32 ensures Distance(a, a)[i] == 0 {
      XorBounded(a[i], a[i], 8);
    }
    ZeroValue(Distance(a, a));
    DistInjective(a, a, b);
  }

  lemma {:induction false} ZeroValue(d: seq<U8>)
    requires forall i | 0 <= i < |d| :: d[i] == 0
    ensures Value(d) == 0
  {
    if d != [] { ZeroValue(d[1..]); }
  }

  /** `is_closer`. */
  method IsCloser(target: NodeId, candidate: NodeId, reference: NodeId) returns (r: bool)
    ensures r <==> Dist(target, candidate) < Dist(target, reference)
  {
    var dc := XorDistance(target, candidate);
    var dr := XorDistance(target, reference);
    LexIsNumeric(dc, dr);
    r := LexLess(dc, dr);
  }

  // ---------- bucket index ----------

  function LeadingZeros8(b: U8): (n: nat)
    ensures n <= 8
  {
    if b >= 128 then 0 else if b >= 64 then 1 else if b >= 32 then 2 else if b >= 16 then 3
    else if b >= 8 then 4 else if b >= 4 then 5 else if b >= 2 then 6 else if b >= 1 then 7 else 8
  }

  function LeadingZeros(d: seq<U8>): (n: nat)
    ensures n <= 8 * |d|
  {
    if d == [] then 0
    else if d[0] == 0 then 8 + LeadingZeros(d[1..])
    else LeadingZeros8(d[0])
  }

  /** `calculate_bucket_index`. */
  method CalculateBucketIndex(d: NodeId) returns (index: nat)
    ensures index == BucketIndex(d)
  {
    var zeros := 0;
    var i := 0;
    assert d[0..] == d;
    while i < 32
      invariant 0 <= i <= 32
      invariant zeros == 8 * i && LeadingZeros(d) == zeros + LeadingZeros(d[i..])
    {
      assert d[i..][1..] == d[i + 1..];
      if d[i] == 0 {
        zeros := zeros + 8;
      } else {
        zeros := zeros + LeadingZeros8(d[i]);
        break;
      }
      i := i + 1;
    }
    index := if zeros >= 256 then 0 else 256 - zeros - 1;
  }

  function BucketIndex(d: NodeId): nat {
    if LeadingZeros(d) >= 256 then 0 else 255 - LeadingZeros(d)
  }

  lemma ByteLog(b: U8)
    requires b != 0
    ensures LeadingZeros8(b) < 8
    ensures Pow2(7 - LeadingZeros8(b)) <= b < Pow2(8 - LeadingZeros8(b))
  {
    assert Pow2(0) == 1 && Pow2(1) == 2 && Pow2(2) == 4 && Pow2(3) == 8 && Pow2(4) == 16;
    assert Pow2(5) == 32 && Pow2(6) == 64 && Pow2(7) == 128 && Pow2(8) == 256;
  }

  /** Leading zeros locate the top bit: the value lies between two neighbouring powers of two. */
  lemma {:induction false} TopBit(d: seq<U8>)
    requires Value(d) != 0
    ensures LeadingZeros(d) < 8 * |d|
    ensures Pow2(8 * |d| - LeadingZeros(d) - 1) <= Value(d) < Pow2(8 * |d| - LeadingZeros(d))
  {
    hide LeadingZeros8, Pow2;
    if d[0] == 0 {
      TopBit(d[1..]);
    } else {
      ByteLog(d[0]);
      ValueBound(d[1..]);
      Scaled(LeadingZeros8(d[0]), d[0], 8 * (|d| - 1), Value(d[1..]));
    }
  }

  /** A top byte with z leading zeros, above n lower bits. */
  lemma Scaled(z: nat, x: nat, n: nat, v: nat)
    requires z < 8 && Pow2(7 - z) <= x < Pow2(8 - z) && v < Pow2(n)
    ensures Pow2(n + 7 - z) <= x * Pow2(n) + v < Pow2(n + 8 - z)
  {
    assert n + (7 - z) == n + 7 - z && n + (8 - z) == n + 8 - z;
    Pow2Add(n, 7 - z);
    Pow2Add(n, 8 - z);
    Between(x, Pow2(7 - z), Pow2(8 - z), Pow2(n), v);
  }

  lemma Between(x: nat, lo: nat, hi: nat, p: nat, v: nat)
    requires lo <= x < hi && v < p
    ensures p * lo <= x * p + v < p * hi
  {
    MulMono(lo, x, p);
    MulMono(x + 1, hi, p);
    assert (x + 1) * p == x * p + p;
  }

  /** The bucket index is the floor of the base-2 logarithm of the distance; the own id goes to bucket 0. */
  lemma BucketIndexIsLog(a: NodeId, b: NodeId)
    ensures BucketIndex(Distance(a, b)) < 256
    ensures a != b ==> var i := BucketIndex(Distance(a, b)); Pow2(i) <= Dist(a, b) < Pow2(i + 1)
    ensures a == b ==> BucketIndex(Distance(a, b)) == 0
  {
    MetricLaws(a, b);
    if a != b {
      TopBit(Distance(a, b));
    } else {
      forall i | 0 <= i < 32 ensures Distance(a, b)[i] == 0 {
        XorBounded(a[i], a[i], 8);
      }
      ZerosOnly(Distance(a, b));
    }
  }

  lemma {:induction false} ZerosOnly(d: seq<U8>)
    requires forall i | 0 <= i < |d| :: d[i] == 0
    ensures LeadingZeros(d) == 8 * |d|
  {
    if d != [] { ZerosOnly(d[1..]); }
  }

  // ---------- same bucket means closer ----------

  lemma XorBits(a: nat, b: nat, n: nat)
    requires n > 0
    ensures Xor(a, b, n) % 2 == (a % 2 + b % 2) % 2
    ensures Xor(a, b, n) / 2 == Xor(a / 2, b / 2, n - 1)
  {
  }

  lemma XorNone(a: nat, b: nat)
    ensures Xor(a, b, 0) == 0
  {
  }

  lemma XorStep(a: nat, b: nat, n: nat)
    requires n > 0
    ensures Xor(a, b, n) == (a % 2 + b % 2) % 2 + 2 * Xor(a / 2, b / 2, n - 1)
  {
  }

  lemma BitChain(p: nat, c: nat, t: nat)
    requires p <= 1 && c <= 1 && t <= 1
    ensures (t + c) % 2 == ((p + c) % 2 + (p + t) % 2) % 2
  {
  }

  lemma {:induction false} XorChain(p: nat, c: nat, t: nat, n: nat)
    ensures Xor(t, c, n) == Xor(Xor(p, c, n), Xor(p, t, n), n)
  {
    hide Xor;
    if n == 0 {
      XorNone(t, c);
      XorNone(Xor(p, c, n), Xor(p, t, n));
    } else {
      XorChain(p / 2, c / 2, t / 2, n - 1);
      XorBits(p, c, n);
      XorBits(p, t, n);
      XorStep(t, c, n);
      XorStep(Xor(p, c, n), Xor(p, t, n), n);
      BitChain(p % 2, c % 2, t % 2);
    }
  }

  /** Two numbers with the same top bit cancel it. */
  lemma {:induction false} XorTop(x: nat, y: nat, n: nat, z: nat)
    requires Pow2(z) <= x < Pow2(z + 1) && Pow2(z) <= y < Pow2(z + 1)
    ensures Xor(x, y, n) < Pow2(z)
  {
    if n > 0 {
      if z == 0 {
        XorBounded(1, 1, n);
      } else {
        XorTop(x / 2, y / 2, n - 1, z - 1);
      }
    }
  }

  lemma SameTopBit(x: U8, y: U8)
    requires x != 0 && y != 0 && LeadingZeros8(x) == LeadingZeros8(y)
    ensures Xor8(x, y) != 0 ==> LeadingZeros8(Xor8(x, y)) > LeadingZeros8(y)
    ensures LeadingZeros8(y) < 8
  {
    hide Xor, Pow2, LeadingZeros8;
    ByteLog(x);
    ByteLog(y);
    var both := Xor8(x, y);
    XorTop(x, y, 8, 7 - LeadingZeros8(x));
    if both != 0 {
      ByteLog(both);
      PowersGrow(7 - LeadingZeros8(both), 7 - LeadingZeros8(y));
    }
  }

  lemma {:induction false} SameLeadingZeros(x: seq<U8>, y: seq<U8>, both: seq<U8>)
    requires |x| == |y| == |both| && LeadingZeros(x) == LeadingZeros(y) < 8 * |x|
    requires forall i | 0 <= i < |x| :: both[i] == Xor8(x[i], y[i])
    ensures LeadingZeros(both) > LeadingZeros(y)
  {
    hide LeadingZeros8, Pow2, Xor;
    if x[0] == 0 || y[0] == 0 {
      if x[0] != 0 { ByteLog(x[0]); }
      if y[0] != 0 { ByteLog(y[0]); }
      XorBounded(0, 0, 8);
      SameLeadingZeros(x[1..], y[1..], both[1..]);
    } else {
      SameTopBit(x[0], y[0]);
    }
  }

  lemma {:induction false} PowersGrow(a: nat, b: nat)
    ensures a < b <==> Pow2(a) < Pow2(b)
    ensures a <= b ==> Pow2(a) <= Pow2(b)
  {
    if a > 0 && b > 0 {
      PowersGrow(a - 1, b - 1);
    }
  }

  /** A contact filed in the target's own bucket is strictly closer to the target than the table's owner. */
  lemma SameBucketIsCloser(p: NodeId, c: NodeId, t: NodeId)
    requires c != p && t != p && BucketIndex(Distance(p, c)) == BucketIndex(Distance(p, t))
    ensures Dist(t, c) < Pow2(BucketIndex(Distance(p, t))) <= Dist(t, p)
  {
    hide LeadingZeros, LexLess, Pow2, Value, Xor;
    var x, y := Distance(p, c), Distance(p, t);
    MetricLaws(p, c);
    MetricLaws(p, t);
    TopBit(x);
    TopBit(y);
    forall i | 0 <= i < 32 ensures Distance(t, c)[i] == Xor8(x[i], y[i]) {
      XorChain(p[i], c[i], t[i], 8);
    }
    var both := Distance(t, c);
    SameLeadingZeros(x, y, both);
    if Value(both) != 0 {
      TopBit(both);
      PowersGrow(256 - LeadingZeros(both), 255 - LeadingZeros(y));
    }
  }
}
