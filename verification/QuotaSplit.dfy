/**
  Recovering the ticket from a quota (apps/web/lib/home.ts): the quota was built as ticket plus rounded fee,
  and the split searches a window of two cents around a rounded guess. Cents and basis points are integers.
 */
module QuotaSplit {
  import opened Arithmetic
  import opened Wrappers

  datatype Parts = Parts(ticket: int, fee: int)

  function Fee(ticket: int, bps: int): int {
    RoundDiv(ticket * bps, 10_000)
  }

  /** How a quota is priced: ticket plus its fee. */
  function Quota(ticket: int, bps: int): int {
    ticket + Fee(ticket, bps)
  }

  function Guess(quota: int, bps: int): int
    requires bps >= 0
  {
    RoundDiv(10_000 * quota, 10_000 + bps)
  }

  method SplitQuota(quota: int, bps: int) returns (r: Option<Parts>)
    ensures r.Some? <==> quota > 0 && bps >= 0 && exists t :: t > 0 && Quota(t, bps) == quota
    ensures r.Some? ==> r.value.ticket > 0 && Quota(r.value.ticket, bps) == quota && r.value.fee == Fee(r.value.ticket, bps)
    ensures r.Some? ==> forall t :: Quota(t, bps) == quota ==> t == r.value.ticket
  {
    if quota <= 0 || bps < 0 { return None; }
    var guess := Guess(quota, bps);
    var ticket := guess - 2;
    while ticket <= guess + 2
      invariant guess - 2 <= ticket <= guess + 3
      invariant forall t :: guess - 2 <= t < ticket && t > 0 ==> Quota(t, bps) != quota
    {
      if ticket > 0 && Quota(ticket, bps) == quota {
        forall t | Quota(t, bps) == quota ensures t == ticket { TicketIsUnique(t, ticket, bps); }
        return Some(Parts(ticket, quota - ticket));
      }
      ticket := ticket + 1;
    }
    forall t | t > 0 ensures Quota(t, bps) != quota {
      GuessIsTheTicket(t, bps);
    }
    r := None;
  }

  /** The fee is the nearest cent to the percentage of the ticket, and a half cent goes up. */
  lemma FeeIsNearest(ticket: int, bps: int)
    ensures ticket * bps - 5_000 < 10_000 * Fee(ticket, bps) <= ticket * bps + 5_000
  {
    RoundBracket(ticket * bps, 10_000);
  }

  /** The forward map is strictly increasing. */
  lemma QuotaGrows(t: int, u: int, bps: int)
    requires t < u && bps >= 0
    ensures Quota(t, bps) < Quota(u, bps)
  {
    MulMonotone(bps, t, u);
    RoundBracket(t * bps, 10_000);
    RoundBracket(u * bps, 10_000);
  }

  lemma TicketIsUnique(t: int, u: int, bps: int)
    requires bps >= 0 && Quota(t, bps) == Quota(u, bps)
    ensures t == u
  {
    if t < u { QuotaGrows(t, u, bps); }
    if u < t { QuotaGrows(u, t, bps); }
  }

  /** The rounding error of the fee shrinks when divided back, so the guess itself is already the ticket. */
  lemma GuessIsTheTicket(t: int, bps: int)
    requires bps >= 0
    ensures Guess(Quota(t, bps), bps) == t
  {
    var q, d := Quota(t, bps), 10_000 + bps;
    RoundBracket(t * bps, 10_000);
    assert d * t == 10_000 * t + t * bps;
    // 20000 * fee lies in (2 * t * bps - 10000, 2 * t * bps + 10000]
    assert 2 * (d * t) - 10_000 < 20_000 * q <= 2 * (d * t) + 10_000;
    assert 2 * d * t == 2 * (d * t);
    if bps == 0 {
      assert RoundDiv(0, 10_000) == 0;
      assert t * bps == 0 && q == t;
    }
    DivUnique(2 * (10_000 * q) + d, 2 * d, t);
  }

  /** Exactly the quotas whose guess prices back to them can be split: the window around it never matters. */
  lemma SplittableExactly(quota: int, bps: int)
    requires quota > 0 && bps >= 0
    ensures (exists t :: t > 0 && Quota(t, bps) == quota) <==> Quota(Guess(quota, bps), bps) == quota
  {
    if exists t :: t > 0 && Quota(t, bps) == quota {
      var t :| t > 0 && Quota(t, bps) == quota;
      GuessIsTheTicket(t, bps);
    }
    if Quota(Guess(quota, bps), bps) == quota {
      ZeroQuota(bps);
      if Guess(quota, bps) < 0 { QuotaGrows(Guess(quota, bps), 0, bps); }
    }
  }

  lemma ZeroQuota(bps: int)
    ensures Quota(0, bps) == 0
  {
    assert 0 * bps == 0;
    DivUnique(10_000, 20_000, 0);
  }

  /** Not every quota can be split: one cent at 100% has no ticket, since one cent of ticket already costs two. */
  lemma SomeQuotasHaveNoTicket()
    ensures !exists t :: t > 0 && Quota(t, 10_000) == 1
  {
    SplittableExactly(1, 10_000);
    GuessOfOneCent();
    hide Quota, Guess;
  }

  lemma GuessOfOneCent()
    ensures Guess(1, 10_000) == 1 && Quota(1, 10_000) == 2
  {
  }
}
