/**
  The loss aggregator of hmeg/model/utils.py (class LossManager): it takes
  weighted loss terms one at a time, keeps their running total for
  back-propagation and logs the value of each term under its name.

  A tensor scalar is an exact `real`; `.data.cpu().item()` copies the value.
 */
module LossManagement {
  import opened Wrappers

  /** One add_loss call: the loss term, the name it is logged under, its weight. */
  datatype Contribution = Contribution(loss: real, name: string, weight: real) {
    /** The weighted term `loss * weight` that the call adds and logs. */
    function Weighted(): real {
      loss * weight
    }
  }

  /** The sum of the weighted terms of the calls `h`. */
  function WeightedSum(h: seq<Contribution>): real {
    if |h| == 0 then 0.0 else h[0].Weighted() + WeightedSum(h[1..])
  }

  /** Each further call adds its weighted term to the sum. */
  lemma {:induction false} WeightedSumAppend(h: seq<Contribution>, c: Contribution)
    ensures WeightedSum(h + [c]) == WeightedSum(h) + c.Weighted()
  {
    if |h| == 0 {
      assert h + [c] == [c];
    } else {
      assert (h + [c])[1..] == h[1..] + [c];
      WeightedSumAppend(h[1..], c);
    }
  }

  /**
    The total after the calls `h`: absent before the first call, and the sum
    of all weighted terms after it.
   */
  function TotalOf(h: seq<Contribution>): Option<real> {
    if |h| == 0 then None else Some(WeightedSum(h))
  }

  /** The names the calls `h` logged under. */
  function Names(h: seq<Contribution>): set<string> {
    set i | 0 <= i < |h| :: h[i].name
  }

  /** The last of the calls `h` that logged under `n`. */
  function LastIndex(h: seq<Contribution>, n: string): (k: nat)
    requires n in Names(h)
    ensures k < |h| && h[k].name == n
    ensures forall j :: k < j < |h| ==> h[j].name != n
  {
    var last := |h| - 1;
    if h[last].name == n then last
    else
      assert n in Names(h[..last]) by {
        var i :| 0 <= i < |h| && h[i].name == n;
        assert h[..last][i] == h[i];
      }
      LastIndex(h[..last], n)
  }

  /**
    The log after the calls `h`: every name used, mapped to the weighted
    term of the last call that used it.
   */
  function LogOf(h: seq<Contribution>): map<string, real> {
    map n | n in Names(h) :: h[LastIndex(h, n)].Weighted()
  }

  /** A further call adds its own name to the names used. */
  lemma NamesAppend(h: seq<Contribution>, c: Contribution)
    ensures Names(h + [c]) == Names(h) + {c.name}
  {
    var h' := h + [c];
    forall n | n in Names(h') ensures n in Names(h) + {c.name} {
      var i :| 0 <= i < |h'| && h'[i].name == n;
      if i < |h| { assert h[i] == h'[i]; }
    }
    forall n | n in Names(h) ensures n in Names(h') {
      var i :| 0 <= i < |h| && h[i].name == n;
      assert h'[i] == h[i];
    }
    assert h'[|h|].name == c.name;
  }

  /** A further call under another name does not move that name's last call. */
  lemma LastIndexAppend(h: seq<Contribution>, c: Contribution, n: string)
    requires n in Names(h) && n != c.name
    ensures n in Names(h + [c]) && LastIndex(h + [c], n) == LastIndex(h, n)
  {
    NamesAppend(h, c);
    assert (h + [c])[..|h|] == h;
  }

  /** A further call writes its own entry of the log and leaves the others alone. */
  lemma LogOfAppend(h: seq<Contribution>, c: Contribution)
    ensures LogOf(h + [c]) == LogOf(h)[c.name := c.Weighted()]
  {
    var h' := h + [c];
    NamesAppend(h, c);
    var m, m' := LogOf(h), LogOf(h');
    forall n | n in Names(h) && n != c.name
      ensures m'[n] == m[n]
    {
      LastIndexAppend(h, c, n);
      assert h'[LastIndex(h, n)] == h[LastIndex(h, n)];
    }
    assert m'.Keys == m[c.name := c.Weighted()].Keys;
  }

  /**
    A repeated name keeps only the later term in the log, but the total
    counts both.
   */
  lemma RepeatedName(h: seq<Contribution>, a: Contribution, b: Contribution)
    requires a.name == b.name
    ensures b.name in LogOf(h + [a, b]) && LogOf(h + [a, b])[b.name] == b.Weighted()
    ensures TotalOf(h + [a, b]) == Some(WeightedSum(h) + a.Weighted() + b.Weighted())
  {
    assert h + [a, b] == (h + [a]) + [b];
    LogOfAppend(h + [a], b);
    WeightedSumAppend(h, a);
    WeightedSumAppend(h + [a], b);
  }

  /**
    Python's LossManager. `total` is `total_loss` (None until the first
    add_loss), `log` is `all_losses`; the ghost `history` is the sequence of
    add_loss calls made so far, which both fields are a function of.
   */
  class LossManager {
    var total: Option<real>
    var log: map<string, real>
    ghost var history: seq<Contribution>

    ghost predicate Valid()
      reads this
    {
      total == TotalOf(history) && log == LogOf(history)
    }

    /** `LossManager()`: no total yet and an empty log. */
    constructor ()
      ensures Valid() && history == []
      ensures total == None && log == map[]
    {
      total := None;
      log := map[];
      history := [];
    }

    /**
      `add_loss(loss, name, weight=1.0)`: the first call assigns the weighted
      term to the total, later calls add it; the log entry for `name` is
      overwritten with the weighted term.
     */
    method AddLoss(loss: real, name: string, weight: real := 1.0)
      requires Valid()
      modifies this
      ensures Valid()
      ensures history == old(history) + [Contribution(loss, name, weight)]
      ensures total == Some(match old(total)
                            case None => loss * weight
                            case Some(t) => t + loss * weight)
      ensures log == old(log)[name := loss * weight]
    {
      var cur := loss * weight;
      ghost var c := Contribution(loss, name, weight);
      assert c.Weighted() == cur;
      WeightedSumAppend(history, c);
      assert TotalOf(history + [c]) == Some(WeightedSum(history) + cur);
      assert total.Some? ==> total.value == WeightedSum(history);
      if total.Some? {
        total := Some(total.value + cur);
      } else {
        total := Some(cur);
      }
      log := log[name := cur];
      LogOfAppend(history, c);
      history := history + [c];
    }

    /** `items()`: the (name, value) pairs of the log. */
    function Items(): (r: set<(string, real)>)
      reads this
      ensures forall p :: p in r <==> p.0 in log && log[p.0] == p.1
    {
      set n | n in log :: (n, log[n])
    }
  }
}
