/**
 * The derived columns of lines 57-60: the total aligned reads of each
 * library and the share of them on each genome (the data of the bar plot).
 */
module Proportions {
  import opened Records

  /** `total_counts = spom_counts + scer_counts`, with the two read shares. */
  datatype Shares = Shares(total: int, proportionSpom: real, proportionScer: real)

  function TotalCounts(r: Library): int
  {
    r.spom + r.scer
  }

  /** The derived cells of one row; pandas would give NaN or inf for a zero total. */
  function RowShares(r: Library): (s: Shares)
    requires TotalCounts(r) != 0
    ensures s.total == r.spom + r.scer
    ensures s.proportionSpom * s.total as real == r.spom as real
    ensures s.proportionScer * s.total as real == r.scer as real
  {
    var total := TotalCounts(r);
    Shares(total, r.spom as real / total as real, r.scer as real / total as real)
  }

  /** The three derived columns, one entry per row in row order. */
  function DeriveColumns(t: seq<Library>): (d: seq<Shares>)
    requires forall i :: 0 <= i < |t| ==> TotalCounts(t[i]) != 0
    ensures |d| == |t| && forall i :: 0 <= i < |t| ==> d[i] == RowShares(t[i])
  {
    seq(|t|, i requires 0 <= i < |t| => RowShares(t[i]))
  }

  /** The two shares of every row add up to one. */
  lemma SharesSumToOne(t: seq<Library>)
    requires forall i :: 0 <= i < |t| ==> TotalCounts(t[i]) != 0
    ensures forall i :: 0 <= i < |t| ==>
      DeriveColumns(t)[i].proportionSpom + DeriveColumns(t)[i].proportionScer == 1.0
  {
    forall i | 0 <= i < |t|
      ensures DeriveColumns(t)[i].proportionSpom + DeriveColumns(t)[i].proportionScer == 1.0
    {
      var s := RowShares(t[i]);
      var total := s.total as real;
      calc {
        (s.proportionSpom + s.proportionScer) * total;
        s.proportionSpom * total + s.proportionScer * total;
        t[i].spom as real + t[i].scer as real;
        total;
      }
    }
  }

  lemma ShareBounds(p: real, count: real, total: real)
    requires 0.0 <= count <= total && total > 0.0 && p * total == count
    ensures 0.0 <= p <= 1.0
  {
    assert p == count / total;
  }

  /** With read counts (never negative), both shares lie in [0, 1], the range the plot's axis spans. */
  lemma SharesInUnitInterval(t: seq<Library>)
    requires forall i :: 0 <= i < |t| ==> t[i].spom >= 0 && t[i].scer >= 0 && TotalCounts(t[i]) != 0
    ensures forall i :: 0 <= i < |t| ==>
      0.0 <= DeriveColumns(t)[i].proportionSpom <= 1.0 && 0.0 <= DeriveColumns(t)[i].proportionScer <= 1.0
  {
    forall i | 0 <= i < |t|
      ensures 0.0 <= DeriveColumns(t)[i].proportionSpom <= 1.0 && 0.0 <= DeriveColumns(t)[i].proportionScer <= 1.0
    {
      var s := RowShares(t[i]);
      ShareBounds(s.proportionSpom, t[i].spom as real, s.total as real);
      ShareBounds(s.proportionScer, t[i].scer as real, s.total as real);
    }
  }
}
