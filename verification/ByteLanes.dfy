/** Byte lanes of a word: the arithmetic behind VHDL slices such as reg(15 downto 8). */
module ByteLanes {
  import opened Machine

  /** One strobe per byte lane of a 32-bit word. */
  type Strobe = s: seq<bool> | |s| == 4 witness [false, false, false, false]

  const ALL_LANES: Strobe := [true, true, true, true]

  /** Number of values of n bytes. */
  function Range(n: nat): (r: nat)
    ensures r > 0
  {
    if n == 0 then 1 else 256 * Range(n - 1)
  }

  lemma RangeOfWord()
    ensures Range(4) == TWO32
  {
    assert Range(1) == 256 && Range(2) == 0x1_0000 && Range(3) == 0x100_0000;
  }

  /** Byte lane k of w. */
  function Lane(w: nat, k: nat): (b: nat)
    ensures b < 256
  {
    if k == 0 then w % 256 else Lane(w / 256, k - 1)
  }

  /** w with byte lane k replaced. */
  function SetLane(w: nat, k: nat, b: nat): nat
    requires b < 256
  {
    if k == 0 then w - w % 256 + b else w % 256 + 256 * SetLane(w / 256, k - 1, b)
  }

  lemma {:induction false} SetLaneLanes(w: nat, k: nat, b: nat, j: nat)
    requires b < 256
    ensures Lane(SetLane(w, k, b), j) == if j == k then b else Lane(w, j)
  {
    if k > 0 && j > 0 {
      SetLaneLanes(w / 256, k - 1, b, j - 1);
    }
  }

  lemma {:induction false} SetLaneFits(w: nat, k: nat, b: nat, n: nat)
    requires b < 256 && k < n && w < Range(n)
    ensures SetLane(w, k, b) < Range(n)
  {
    var q, r := w / 256, w % 256;
    assert w == 256 * q + r && Range(n) == 256 * Range(n - 1);
    assert q < Range(n - 1);
    if k == 0 {
      assert SetLane(w, k, b) == 256 * q + b;
    } else {
      SetLaneFits(q, k - 1, b, n - 1);
      assert SetLane(w, k, b) == r + 256 * SetLane(q, k - 1, b);
    }
  }

  /** A word of n bytes is determined by its lanes. */
  lemma {:induction false} LanesDetermine(v: nat, w: nat, n: nat)
    requires v < Range(n) && w < Range(n)
    requires forall k: nat :: k < n ==> Lane(v, k) == Lane(w, k)
    ensures v == w
  {
    if n > 0 {
      forall k: nat | k < n - 1
        ensures Lane(v / 256, k) == Lane(w / 256, k)
      {
        assert Lane(v, k + 1) == Lane(w, k + 1);
      }
      LanesDetermine(v / 256, w / 256, n - 1);
      assert Lane(v, 0) == Lane(w, 0);
    }
  }

  /** The bytes of data whose strobe is set over those of w, lane by lane. */
  function MergeLanes(w: nat, data: nat, strb: seq<bool>): nat {
    if strb == [] then 0 else
      (if strb[0] then data % 256 else w % 256) + 256 * MergeLanes(w / 256, data / 256, strb[1..])
  }

  lemma {:induction false} MergeLaneValues(w: nat, data: nat, strb: seq<bool>, k: nat)
    requires k < |strb|
    ensures Lane(MergeLanes(w, data, strb), k) == Lane(if strb[k] then data else w, k)
  {
    var rest := MergeLanes(w / 256, data / 256, strb[1..]);
    RemainderUnique(MergeLanes(w, data, strb), 256, rest, if strb[0] then data % 256 else w % 256);
    if k > 0 {
      MergeLaneValues(w / 256, data / 256, strb[1..], k - 1);
    }
  }

  lemma {:induction false} MergeFits(w: nat, data: nat, strb: seq<bool>)
    ensures MergeLanes(w, data, strb) < Range(|strb|)
  {
    if strb != [] {
      MergeFits(w / 256, data / 256, strb[1..]);
    }
  }

  /** A strobed write to a 32-bit register. */
  function Merge(w: u32, data: u32, strb: Strobe): (r: u32)
    ensures forall k: nat :: k < 4 ==> Lane(r, k) == Lane(if strb[k] then data else w, k)
    ensures strb == ALL_LANES ==> r == data
  {
    RangeOfWord();
    MergeFits(w, data, strb);
    var r := MergeLanes(w, data, strb);
    assert forall k: nat :: k < 4 ==> Lane(r, k) == Lane(if strb[k] then data else w, k) by {
      forall k: nat | k < 4
        ensures Lane(r, k) == Lane(if strb[k] then data else w, k)
      {
        MergeLaneValues(w, data, strb, k);
      }
    }
    assert strb == ALL_LANES ==> r == data by {
      if strb == ALL_LANES { LanesDetermine(r, data, 4); }
    }
    r
  }

  /** The byte loop of the register write: one slice assignment per strobed lane. */
  method WriteLanes(w: u32, data: u32, strb: Strobe) returns (r: u32)
    ensures r == Merge(w, data, strb)
  {
    r := w;
    RangeOfWord();
    for k := 0 to 4
      invariant forall j: nat :: j < 4 ==> Lane(r, j) == Lane(if j < k && strb[j] then data else w, j)
    {
      if strb[k] {
        ghost var before := r;
        SetLaneFits(r, k, Lane(data, k), 4);
        r := SetLane(r, k, Lane(data, k));
        forall j: nat | j < 4
          ensures Lane(r, j) == if j == k then Lane(data, k) else Lane(before, j)
        {
          SetLaneLanes(before, k, Lane(data, k), j);
        }
      }
    }
    LanesDetermine(r, Merge(w, data, strb), 4);
  }
}
