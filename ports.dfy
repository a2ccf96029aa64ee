/**
 * UDP port handling for credentials: validation of a port typed in by the
 * administrator, and the allocator that picks the lowest free port of the
 * pool 6000..19999 when none is given. Ports are kept and compared as
 * decimal strings, exactly as the panel stores them.
 */
module Ports {
  import opened Optional
  import opened Text
  import opened Registry

  const PoolFirst: nat := 6000
  const PoolLast: nat := 19999

  /**
   * A manual port passes when it is 2 to 5 ASCII digits whose value lies in
   * the pool (the regular expression `\d{2,5}` and `6000 <= int(port) <= 19999`).
   */
  predicate PortAccepted(port: string)
    ensures PortAccepted(port) ==> 4 <= |port| <= 5
  {
    2 <= |port| <= 5 && AllDigits(port) && PoolFirst <= DecimalValue(port) <= PoolLast
  }

  /** Every port the allocator can hand out passes the manual validation too. */
  lemma PoolPortAccepted(p: nat)
    requires PoolFirst <= p <= PoolLast
    ensures PortAccepted(NatToDecimal(p))
    ensures NatToDecimal(p)[0] != '0'
  {
    NatToDecimalLength(p, 5);
    NatToDecimalLength(p, 3);
    assert Pow10(3) == 1000 && Pow10(5) == 100000;
  }

  /** An accepted port without a leading zero is the decimal string of its value. */
  lemma AcceptedCanonical(port: string)
    requires PortAccepted(port) && port[0] != '0'
    ensures port == NatToDecimal(DecimalValue(port))
  {
    CanonicalDigits(port);
  }

  lemma {:induction false} CanonicalDigits(s: string)
    requires s != [] && AllDigits(s) && (|s| > 1 ==> s[0] != '0')
    ensures NatToDecimal(DecimalValue(s)) == s
    decreases |s|
  {
    var n := DecimalValue(s);
    var init := s[..|s| - 1];
    var d := s[|s| - 1] as int - '0' as int;
    if |s| == 1 {
      assert n == d;
    } else {
      assert init[0] == s[0];
      CanonicalDigits(init);
      NonZeroLead(init);
      assert n == DecimalValue(init) * 10 + d;
      assert n / 10 == DecimalValue(init) && n % 10 == d;
      assert NatToDecimal(n) == NatToDecimal(n / 10) + [DigitChar(n % 10)];
      assert s == init + [s[|s| - 1]];
    }
  }

  /** A digit string with a non-zero first digit is worth at least 10^(length-1). */
  lemma {:induction false} NonZeroLead(s: string)
    requires s != [] && AllDigits(s) && s[0] != '0'
    ensures DecimalValue(s) >= Pow10(|s| - 1)
    decreases |s|
  {
    if |s| > 1 {
      var init := s[..|s| - 1];
      assert init[0] == s[0];
      NonZeroLead(init);
    }
  }

  /** The value of `str(p)` for the lowest pool value at or above `p` not in `used`, if any. */
  function SmallestFreeFrom(used: set<string>, p: nat): Option<nat>
    decreases PoolLast + 1 - p
  {
    if p > PoolLast then None
    else if NatToDecimal(p) !in used then Some(p)
    else SmallestFreeFrom(used, p + 1)
  }

  /** The scan finds the least free pool value at or above `p`, and finds none exactly when all are taken. */
  lemma {:induction false} SmallestFreeFromSpec(used: set<string>, p: nat)
    ensures var r := SmallestFreeFrom(used, p);
      && (r.Some? ==> p <= r.value <= PoolLast && NatToDecimal(r.value) !in used)
      && (r.Some? ==> forall q :: p <= q < r.value ==> NatToDecimal(q) in used)
      && (r.None? <==> forall q :: p <= q <= PoolLast ==> NatToDecimal(q) in used)
    decreases PoolLast + 1 - p
  {
    if p <= PoolLast && NatToDecimal(p) in used {
      var r := SmallestFreeFrom(used, p + 1);
      SmallestFreeFromSpec(used, p + 1);
      assert SmallestFreeFrom(used, p) == r;
      if r.Some? {
        forall q | p <= q < r.value ensures NatToDecimal(q) in used {
          if q != p {
            assert p + 1 <= q;
          }
        }
      } else {
        forall q | p <= q <= PoolLast ensures NatToDecimal(q) in used {
          if q != p {
            assert p + 1 <= q;
          }
        }
      }
    }
  }

  /** The port `pick_free_port` returns for this set of taken strings: "" when the pool is full. */
  function FreePort(used: set<string>): (r: string)
    ensures r != "" ==> r !in used
  {
    SmallestFreeFromSpec(used, PoolFirst);
    match SmallestFreeFrom(used, PoolFirst)
    case Some(p) => NatToDecimal(p)
    case None => ""
  }

  /**
   * The allocator hands out a port that passes validation and is not taken,
   * and hands out none exactly when every pool port is taken.
   */
  lemma FreePortSpec(used: set<string>)
    ensures var port := FreePort(used);
      && (port != "" ==> PortAccepted(port) && port !in used && port[0] != '0')
      && (port == "" <==> forall q :: PoolFirst <= q <= PoolLast ==> NatToDecimal(q) in used)
  {
    SmallestFreeFromSpec(used, PoolFirst);
    match SmallestFreeFrom(used, PoolFirst)
    case Some(p) => PoolPortAccepted(p);
    case None =>
  }

  /** The strings `pick_free_port` treats as taken: registry ports and UDP listening ports. */
  function TakenPorts(users: seq<UserRecord>, listening: set<string>): set<string> {
    RegistryPorts(users) + listening
  }

  /**
   * `pick_free_port`: scan 6000..19999 upward and return the first value
   * whose decimal string is not taken, or "" when every one is.
   */
  method PickFreePort(users: seq<UserRecord>, listening: set<string>) returns (port: string)
    ensures port == FreePort(TakenPorts(users, listening))
  {
    var used := RegistryPorts(users) + listening;
    var p := PoolFirst;
    while p < PoolLast + 1
      invariant PoolFirst <= p <= PoolLast + 1
      invariant SmallestFreeFrom(used, PoolFirst) == SmallestFreeFrom(used, p)
    {
      port := NatToDecimal(p);
      if port !in used {
        return;
      }
      p := p + 1;
    }
    port := "";
  }

  /**
   * A stored port written with a leading zero passes validation but does not
   * keep its port from being handed out again: with "06000" in the registry
   * the allocator still returns "6000", the same UDP port.
   */
  lemma LeadingZeroPortDoesNotBlock()
    ensures PortAccepted("06000")
    ensures DecimalValue("06000") == DecimalValue("6000") == 6000
    ensures FreePort(TakenPorts([UserRecord("a", "pw", "", "06000", "")], {})) == "6000"
  {
    SixThousand();
    LeadingZero("6000");
    assert "0" + "6000" == "06000";
    var used := TakenPorts([UserRecord("a", "pw", "", "06000", "")], {});
    assert used == {"06000"};
    assert NatToDecimal(6000) !in used;
  }

  lemma SixThousand()
    ensures AllDigits("6000") && DecimalValue("6000") == 6000 && NatToDecimal(6000) == "6000"
  {
    CanonicalDigits("6000");
  }
}
