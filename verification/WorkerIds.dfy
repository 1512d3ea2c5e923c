// The worker id derived from the text of an IPv4 address (snowflake.cpp:31-46).
module WorkerIds {
  import opened Decimal

  /** The characters in front of the k-th dot, dots left out. */
  function Octets(s: string, k: nat): string
  {
    if s == [] || k == 0 then []
    else if s[0] == '.' then Octets(s[1..], k - 1)
    else [s[0]] + Octets(s[1..], k)
  }

  /** The digits of the first three octets read as one number, modulo 1024. */
  function WorkerOfIp(ip: string): (w: nat)
    ensures w < 1024
  {
    Value(Octets(ip, 3)) % 1024
  }

  /** The loop of the original: its accumulator wraps at 32 bits, which the result does not
      show. */
  method IpToWorkerId(ipAddress: string) returns (workerId: nat)
    ensures workerId == WorkerOfIp(ipAddress)
  {
    workerId := 0;
    var it, n := 0, 0;
    ghost var seen := "";
    OctetsStart(ipAddress);
    while it < |ipAddress| && n < 3
      invariant it <= |ipAddress| && n <= 3
      invariant SeenUpTo(ipAddress, it, 3 - n, seen)
      invariant workerId == Wrap(Value(seen))
    {
      var c := ipAddress[it];
      OctetsStep(ipAddress, it, 3 - n, seen);
      if c == '.' {
        it := it + 1;
        n := n + 1;
      } else {
        Accumulate(seen, c, workerId);
        workerId := Wrap(workerId * 10 + (c as int - '0' as int));
        seen := seen + [c];
        it := it + 1;
      }
    }
    OctetsEnd(ipAddress, it, 3 - n, seen);
    WrapThenMask(Value(seen));
    workerId := workerId % 1024;
  }

  /** Arithmetic on 32-bit unsigned numbers. */
  function Wrap(x: int): nat { x % 0x1_0000_0000 }

  lemma WrapThenMask(x: int)
    ensures Wrap(x) % 1024 == x % 1024
  {
  }

  /** The characters counted so far, with k dots to go from position i on. */
  ghost predicate SeenUpTo(s: string, i: nat, k: nat, seen: string)
    requires i <= |s|
  {
    Octets(s, 3) == seen + Octets(s[i..], k)
  }

  lemma OctetsStart(s: string)
    ensures SeenUpTo(s, 0, 3, "")
  {
    assert s[0..] == s && "" + Octets(s, 3) == Octets(s, 3);
  }

  lemma OctetsStep(s: string, i: nat, k: nat, seen: string)
    requires i < |s| && k > 0 && SeenUpTo(s, i, k, seen)
    ensures if s[i] == '.' then SeenUpTo(s, i + 1, k - 1, seen) else SeenUpTo(s, i + 1, k, seen + [s[i]])
  {
    assert s[i..][1..] == s[i + 1..];
    assert seen + ([s[i]] + Octets(s[i + 1..], k)) == (seen + [s[i]]) + Octets(s[i + 1..], k);
  }

  lemma OctetsEnd(s: string, i: nat, k: nat, seen: string)
    requires i <= |s| && (i == |s| || k == 0) && SeenUpTo(s, i, k, seen)
    ensures Octets(s, 3) == seen
  {
    assert seen + "" == seen;
  }

  lemma Accumulate(seen: string, c: char, w: nat)
    requires w == Wrap(Value(seen))
    ensures Wrap(w * 10 + (c as int - '0' as int)) == Wrap(Value(seen + [c]))
  {
    var x := Value(seen);
    assert (seen + [c])[..|seen|] == seen;
    WrapTimes(x, x / 0x1_0000_0000, w, c as int - '0' as int);
  }

  lemma WrapTimes(x: int, q: int, w: int, d: int)
    requires x == 0x1_0000_0000 * q + w
    ensures Wrap(w * 10 + d) == Wrap(x * 10 + d)
  {
    var k := 10 * q;
    assert x * 10 + d == 0x1_0000_0000 * k + (w * 10 + d);
  }

  lemma {:induction false} OctetThenDot(a: string, rest: string, k: nat)
    requires '.' !in a && k > 0
    ensures Octets(a + "." + rest, k) == a + Octets(rest, k - 1)
  {
    FirstOfDotted(a, rest);
    if a == [] {
      assert a + Octets(rest, k - 1) == Octets(rest, k - 1);
    } else {
      OctetThenDot(a[1..], rest, k);
      assert [a[0]] + (a[1..] + Octets(rest, k - 1)) == a + Octets(rest, k - 1);
    }
  }

  lemma FirstOfDotted(a: string, rest: string)
    ensures var s := a + "." + rest;
            if a == [] then s[0] == '.' && s[1..] == rest else s[0] == a[0] && s[1..] == a[1..] + "." + rest
  {
  }

  /** The fourth octet does not count: every host of a network whose addresses share their
      first three octets has the same worker id. */
  lemma SameNetworkSameWorker(a: string, b: string, c: string, d: string)
    requires '.' !in a && '.' !in b && '.' !in c
    ensures WorkerOfIp(a + "." + b + "." + c + "." + d) == Value(a + b + c) % 1024
  {
    var tail := c + "." + d;
    assert a + "." + b + "." + c + "." + d == a + "." + (b + "." + tail);
    OctetThenDot(a, b + "." + tail, 3);
    OctetThenDot(b, tail, 2);
    OctetThenDot(c, d, 1);
    assert a + (b + (c + "")) == a + b + c;
  }

  lemma {:induction false} WithoutDot(a: string, k: nat)
    requires '.' !in a && k > 0
    ensures Octets(a, k) == a
  {
    if a != [] {
      WithoutDot(a[1..], k);
      assert a == [a[0]] + a[1..];
    }
  }

  lemma TwoOctets(a: string, b: string, k: nat)
    requires '.' !in a && '.' !in b && k > 1
    ensures Octets(a + "." + b, k) == a + b
  {
    OctetThenDot(a, b, k);
    WithoutDot(b, k - 1);
  }

  lemma ThreeOctets(a: string, b: string, c: string)
    requires '.' !in a && '.' !in b && '.' !in c
    ensures Octets(a + "." + (b + "." + c), 3) == a + (b + c)
  {
    OctetThenDot(a, b + "." + c, 3);
    TwoOctets(b, c, 2);
  }

  /** Texts with fewer dots are read to their end. */
  lemma FewerDots(a: string, b: string, c: string)
    requires '.' !in a && '.' !in b && '.' !in c
    ensures WorkerOfIp(a) == Value(a) % 1024
    ensures WorkerOfIp(a + "." + b) == Value(a + b) % 1024
    ensures WorkerOfIp(a + "." + (b + "." + c)) == Value(a + (b + c)) % 1024
  {
    WithoutDot(a, 3);
    TwoOctets(a, b, 3);
    ThreeOctets(a, b, c);
  }
}
