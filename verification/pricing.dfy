/**
 * The pricing formula of `calc_price`: halls and not-optional services are
 * billed per hour of the (fractional, unrounded) duration; each chosen
 * optional service adds the value the caller attached to it, unmultiplied.
 */
module Pricing {
  import opened Schema

  /** Duration of [start, end) in hours, `total_seconds() / 3600` without rounding. */
  function Hours(start: Time, end: Time): real
  {
    (end - start) as real / 3600.0
  }

  /** Running total of `hall[3] * hours` over the requested halls, in loop order. */
  function HallCharges(halls: seq<HallRow>, hours: real): real
  {
    if halls == [] then 0.0
    else HallCharges(halls[..|halls| - 1], hours) + halls[|halls| - 1].rate * hours
  }

  /** Running total of `service[2] * hours` over the not-optional services. */
  function ServiceCharges(services: seq<ServiceRow>, hours: real): real
  {
    if services == [] then 0.0
    else ServiceCharges(services[..|services| - 1], hours) + services[|services| - 1].rate * hours
  }

  /** Running total of the values of the chosen optional services. */
  function ChoiceCharges(chosen: seq<Choice>): real
  {
    if chosen == [] then 0.0
    else ChoiceCharges(chosen[..|chosen| - 1]) + chosen[|chosen| - 1].value
  }

  /** Sum of the hourly rates of the halls. */
  function HallRateSum(halls: seq<HallRow>): real
  {
    if halls == [] then 0.0 else halls[0].rate + HallRateSum(halls[1..])
  }

  /** Sum of the hourly rates of the services. */
  function ServiceRateSum(services: seq<ServiceRow>): real
  {
    if services == [] then 0.0 else services[0].rate + ServiceRateSum(services[1..])
  }

  /** Sum of the values of the chosen optional services. */
  function ChoiceSum(chosen: seq<Choice>): real
  {
    if chosen == [] then 0.0 else chosen[0].value + ChoiceSum(chosen[1..])
  }

  lemma {:induction false} HallRateSumSnoc(halls: seq<HallRow>)
    requires halls != []
    ensures HallRateSum(halls) == HallRateSum(halls[..|halls| - 1]) + halls[|halls| - 1].rate
    decreases |halls|
  {
    if |halls| > 1 {
      assert halls[1..][..|halls[1..]| - 1] == halls[..|halls| - 1][1..];
      HallRateSumSnoc(halls[1..]);
    }
  }

  lemma {:induction false} ServiceRateSumSnoc(services: seq<ServiceRow>)
    requires services != []
    ensures ServiceRateSum(services) == ServiceRateSum(services[..|services| - 1]) + services[|services| - 1].rate
    decreases |services|
  {
    if |services| > 1 {
      assert services[1..][..|services[1..]| - 1] == services[..|services| - 1][1..];
      ServiceRateSumSnoc(services[1..]);
    }
  }

  lemma {:induction false} ChoiceSumSnoc(chosen: seq<Choice>)
    requires chosen != []
    ensures ChoiceSum(chosen) == ChoiceSum(chosen[..|chosen| - 1]) + chosen[|chosen| - 1].value
    decreases |chosen|
  {
    if |chosen| > 1 {
      assert chosen[1..][..|chosen[1..]| - 1] == chosen[..|chosen| - 1][1..];
      ChoiceSumSnoc(chosen[1..]);
    }
  }

  /** Billing every hall for the same duration is billing their total rate for it. */
  lemma {:induction false} HallChargesFactor(halls: seq<HallRow>, hours: real)
    ensures HallCharges(halls, hours) == HallRateSum(halls) * hours
    decreases |halls|
  {
    if halls != [] {
      HallChargesFactor(halls[..|halls| - 1], hours);
      HallRateSumSnoc(halls);
    }
  }

  /** Billing every not-optional service for the same duration is billing their total rate for it. */
  lemma {:induction false} ServiceChargesFactor(services: seq<ServiceRow>, hours: real)
    ensures ServiceCharges(services, hours) == ServiceRateSum(services) * hours
    decreases |services|
  {
    if services != [] {
      ServiceChargesFactor(services[..|services| - 1], hours);
      ServiceRateSumSnoc(services);
    }
  }

  /** The loop over the chosen optional services adds up exactly their values. */
  lemma {:induction false} ChoiceChargesSum(chosen: seq<Choice>)
    ensures ChoiceCharges(chosen) == ChoiceSum(chosen)
    decreases |chosen|
  {
    if chosen != [] {
      ChoiceChargesSum(chosen[..|chosen| - 1]);
      ChoiceSumSnoc(chosen);
    }
  }

  /**
   * `calc_price(services_optional, services_not_optional, halls, end_time, start_time)`:
   * the total is the duration in hours times the summed hourly rates of the
   * halls and the not-optional services, plus the summed optional values.
   */
  function CalcPrice(optional: seq<Choice>, notOptional: seq<ServiceRow>, halls: seq<HallRow>,
                     end: Time, start: Time): (price: real)
    ensures price == Hours(start, end) * (HallRateSum(halls) + ServiceRateSum(notOptional))
                     + ChoiceSum(optional)
  {
    var hours := Hours(start, end);
    HallChargesFactor(halls, hours);
    ServiceChargesFactor(notOptional, hours);
    ChoiceChargesSum(optional);
    HallCharges(halls, hours) + ServiceCharges(notOptional, hours) + ChoiceCharges(optional)
  }

  /**
   * With non-negative rates and values, a non-empty window and at least one
   * hall with a positive rate, the price is positive, so the price check of
   * `Reservation.create` cannot reject it.
   */
  lemma {:induction false} PricePositive(optional: seq<Choice>, notOptional: seq<ServiceRow>,
                                         halls: seq<HallRow>, end: Time, start: Time)
    requires start < end
    requires forall i :: 0 <= i < |halls| ==> halls[i].rate >= 0.0
    requires forall i :: 0 <= i < |notOptional| ==> notOptional[i].rate >= 0.0
    requires forall i :: 0 <= i < |optional| ==> optional[i].value >= 0.0
    requires exists i :: 0 <= i < |halls| && halls[i].rate > 0.0
    ensures CalcPrice(optional, notOptional, halls, end, start) > 0.0
  {
    HallRateSumPositive(halls);
    ServiceRateSumNonNegative(notOptional);
    ChoiceSumNonNegative(optional);
    var h := Hours(start, end);
    assert h > 0.0;
    assert HallRateSum(halls) * h > 0.0;
  }

  lemma {:induction false} HallRateSumPositive(halls: seq<HallRow>)
    requires forall i :: 0 <= i < |halls| ==> halls[i].rate >= 0.0
    requires exists i :: 0 <= i < |halls| && halls[i].rate > 0.0
    ensures HallRateSum(halls) > 0.0
    decreases |halls|
  {
    var k :| 0 <= k < |halls| && halls[k].rate > 0.0;
    if k == 0 {
      HallRateSumNonNegative(halls[1..]);
    } else {
      assert halls[1..][k - 1].rate > 0.0;
      HallRateSumPositive(halls[1..]);
    }
  }

  lemma {:induction false} HallRateSumNonNegative(halls: seq<HallRow>)
    requires forall i :: 0 <= i < |halls| ==> halls[i].rate >= 0.0
    ensures HallRateSum(halls) >= 0.0
    decreases |halls|
  {
    if halls != [] {
      HallRateSumNonNegative(halls[1..]);
    }
  }

  lemma {:induction false} ServiceRateSumNonNegative(services: seq<ServiceRow>)
    requires forall i :: 0 <= i < |services| ==> services[i].rate >= 0.0
    ensures ServiceRateSum(services) >= 0.0
    decreases |services|
  {
    if services != [] {
      ServiceRateSumNonNegative(services[1..]);
    }
  }

  lemma {:induction false} ChoiceSumNonNegative(chosen: seq<Choice>)
    requires forall i :: 0 <= i < |chosen| ==> chosen[i].value >= 0.0
    ensures ChoiceSum(chosen) >= 0.0
    decreases |chosen|
  {
    if chosen != [] {
      ChoiceSumNonNegative(chosen[1..]);
    }
  }

  /**
   * The worked example: one hall at 10 per hour booked 10:00-12:00, one
   * not-optional service at 5 per hour and one optional service of value 8
   * cost 10*2 + 5*2 + 8 = 38.
   */
  lemma PriceExample()
    ensures CalcPrice([Choice(3, 8.0)], [ServiceRow(2, "S", 5.0, false)], [HallRow(1, "H", 10.0)],
                      12 * 3600, 10 * 3600) == 38.0
  {
    assert Hours(10 * 3600, 12 * 3600) == 2.0;
  }

  /**
   * The price depends on the time window only through its length: shifting
   * the window leaves it unchanged.
   */
  lemma PriceShiftInvariant(optional: seq<Choice>, notOptional: seq<ServiceRow>, halls: seq<HallRow>,
                            end: Time, start: Time, shift: int)
    ensures CalcPrice(optional, notOptional, halls, end + shift, start + shift)
         == CalcPrice(optional, notOptional, halls, end, start)
  {
    assert Hours(start + shift, end + shift) == Hours(start, end);
  }
}
