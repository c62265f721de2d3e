/** Time-ordered identifiers: fixed-width hexadecimal milliseconds followed by random characters. */
module Ids {
  import opened Text
  import opened Numerals

  const WIDTH: nat := 16

  /** The number of digits of a timestamp: sixteen, or as many as a larger one needs. */
  function Width(ts: nat): (w: nat)
    ensures w >= WIDTH && ts < Power(16, w) && (w == WIDTH <==> ts < Power(16, WIDTH))
  {
    if ts < Power(16, WIDTH) then WIDTH else
      PowerPositive(WIDTH);
      assert ts < 16 * Power(16, Width(ts / 16));
      Width(ts / 16) + 1
  }

  lemma {:induction false} PowerPositive(w: nat)
    ensures Power(16, w) > 0
  {
    if w > 0 { PowerPositive(w - 1); }
  }

  /** The first characters of an id. */
  function Hex(ts: nat): string {
    Numeral(ts, 16, Width(ts))
  }

  lemma HexIs(ts: nat)
    ensures Hex(ts) == Numeral(ts, 16, Width(ts)) && ts < Power(16, Width(ts))
  {
    hide Power, Numeral, Width;
  }

  lemma EarlierBefore(t: nat, ts: nat, earlier: string, r: string)
    requires t < ts && Width(t) == Width(ts) && Hex(t) <= earlier
    ensures Before(earlier, Hex(ts) + r)
  {
    HexIs(t);
    HexIs(ts);
    hide *;
    var rest := earlier[|Hex(t)|..];
    assert earlier == Hex(t) + rest;
    NumeralOrdered(t, ts, 16, Width(ts), rest, r);
  }

  class IdSource {
    var lastTs: nat
    /** The ids issued so far, and their timestamps. */
    ghost var issued: seq<string>
    ghost var stamps: seq<nat>

    ghost predicate Valid()
      reads this
    {
      && |stamps| == |issued|
      && (forall i | 0 <= i < |issued| :: stamps[i] <= lastTs && Hex(stamps[i]) <= issued[i])
      && forall i, j | 0 <= i < j < |issued| && Width(stamps[i]) == Width(stamps[j]) :: Before(issued[i], issued[j])
    }

    constructor ()
      ensures Valid() && issued == [] && stamps == [] && lastTs == 0
    {
      lastTs, issued, stamps := 0, [], [];
    }

    /**
     `new_id` at clock time now (any, even one that went back), with random characters r. The id comes after all
     earlier ones whose timestamp has as many digits: all of them, until the milliseconds need a seventeenth.
    */
    method NewId(now: nat, r: string) returns (id: string)
      requires Valid()
      modifies this
      ensures Valid() && issued == old(issued) + [id] && stamps == old(stamps) + [lastTs]
      ensures lastTs == (if now <= old(lastTs) then old(lastTs) + 1 else now) && id == Hex(lastTs) + r
      ensures forall i | 0 <= i < |old(issued)| && Width(old(stamps)[i]) == Width(lastTs) :: Before(old(issued)[i], id)
      ensures lastTs < Power(16, WIDTH) ==> forall earlier | earlier in old(issued) :: Before(earlier, id)
    {
      var ts := now;
      if ts <= lastTs {
        ts := lastTs + 1;
      }
      id := Hex(ts) + r;
      hide Power, Numeral;
      hide Hex, Before, Width;
      forall i | 0 <= i < |issued| && Width(stamps[i]) == Width(ts) ensures Before(issued[i], id) {
        EarlierBefore(stamps[i], ts, issued[i], r);
      }
      lastTs := ts;
      issued := issued + [id];
      stamps := stamps + [ts];
    }

    /** `entity_id`: ids of one kind share a prefix, which keeps their order. */
    method EntityId(prefix: string, now: nat, r: string) returns (id: string)
      requires Valid()
      modifies this
      ensures Valid() && |issued| == |old(issued)| + 1 && old(issued) <= issued
      ensures lastTs == if now <= old(lastTs) then old(lastTs) + 1 else now
      ensures id == prefix + "_" + issued[|issued| - 1]
      ensures lastTs < Power(16, WIDTH) ==>
                forall earlier | earlier in old(issued) :: Before(prefix + "_" + earlier, id)
    {
      var raw := NewId(now, r);
      id := prefix + "_" + raw;
      forall earlier | earlier in old(issued)
        ensures Before(prefix + "_" + earlier, id) <==> Before(earlier, raw)
      {
        BeforePrefixed(prefix + "_", earlier, raw);
      }
    }
  }

  lemma SixteenTimes(p: nat)
    requires p > 0
    ensures Higher(16 * p, 16) == p && Higher(16 * p - 1, 16) == p - 1 && Lowest(16 * p - 1, 16) == 15
  {
  }

  lemma FirstKept(n: nat, width: nat)
    requires width > 0
    ensures Numeral(n, 16, width + 1)[0] == Numeral(Higher(n, 16), 16, width)[0]
  {
    hide Higher, Lowest, Digit;
  }

  lemma OneDigit(d: nat)
    requires d < 16
    ensures Numeral(d, 16, 1) == [Digit(d)]
  {
    assert Lowest(d, 16) == d;
    hide Higher, Lowest, Digit;
  }

  lemma PowerHigher(k: nat)
    requires k > 0
    ensures Power(16, k - 1) > 0 && Power(16, k) > 0
    ensures Higher(Power(16, k), 16) == Power(16, k - 1) && Higher(Power(16, k) - 1, 16) == Power(16, k - 1) - 1
  {
    PowerPositive(k - 1);
    SixteenTimes(Power(16, k - 1));
    hide Higher;
    assert Power(16, k) == 16 * Power(16, k - 1);
  }

  lemma {:induction false} FirstIsOne(k: nat)
    ensures Numeral(Power(16, k), 16, k + 1)[0] == '1'
  {
    if k == 0 {
      OneDigit(1);
      assert Power(16, 0) == 1 && Digit(1) == '1';
    } else {
      FirstIsOne(k - 1);
      hide *;
      PowerHigher(k);
      FirstKept(Power(16, k), k);
    }
  }

  lemma {:induction false} FirstIsF(k: nat)
    requires k > 0
    ensures Power(16, k) > 0 && Numeral(Power(16, k) - 1, 16, k)[0] == 'f'
  {
    PowerHigher(k);
    if k == 1 {
      OneDigit(15);
      assert Power(16, 1) == 16 && Digit(15) == 'f';
    } else {
      FirstIsF(k - 1);
      hide *;
      FirstKept(Power(16, k) - 1, k - 1);
    }
  }

  lemma WidthsThere()
    ensures Power(16, WIDTH) > 0 && Width(Power(16, WIDTH)) == WIDTH + 1 && Width(Power(16, WIDTH) - 1) == WIDTH
  {
    PowerPositive(WIDTH - 1);
    var p := Power(16, WIDTH - 1);
    assert Power(16, WIDTH) == 16 * p;
    hide Power;
    assert 16 * p / 16 == p && p < 16 * p;
  }

  /** The first timestamp of seventeen digits comes before the last one of sixteen. */
  lemma SeventeenDigitsBreakOrder(q: string, r: string)
    ensures Power(16, WIDTH) > 0
    ensures Before(Hex(Power(16, WIDTH)) + r, Hex(Power(16, WIDTH) - 1) + q)
  {
    WidthsThere();
    FirstIsOne(WIDTH);
    FirstIsF(WIDTH);
    hide Power, Numeral, Width;
    var a, b := Hex(Power(16, WIDTH)) + r, Hex(Power(16, WIDTH) - 1) + q;
    assert a[0] == '1' && b[0] == 'f';
  }
}
