/** How runs of equal code lengths are sent, run by run. */
module RunRule {
  import opened Inflate
  import opened RunLengths

  /** What is sent for n times x, behind prev: zeros by up to 138 at once, and by their numbers only
      if there are less than three; another length once, then repeated up to six times at once, and
      by its number if less than three are left. */
  function Coded(prev: int, x: nat, n: nat): seq<Item>
    decreases n
  {
    if n == 0 then []
    else if x == 0 then
      if n > 138 then [ManyZeros(138)] + Coded(0, 0, n - 138)
      else if n >= 11 then [ManyZeros(n)]
      else if n >= 3 then [Zeros(n)]
      else Repeat(Length(0), n)
    else if prev == x then
      if n > 6 then [Previous(6)] + Coded(x, x, n - 6)
      else if n >= 3 then [Previous(n)]
      else Repeat(Length(x), n)
    else if n > 7 then [Length(x), Previous(6)] + Coded(x, x, n - 7)
    else if n >= 4 then [Length(x), Previous(n - 1)]
    else Repeat(Length(x), n)
  }

  /** n times x from `at` on, and then something else. */
  predicate RunAt(lens: seq<nat>, at: nat, x: nat, n: nat)
  {
    && at + n <= |lens| && (forall k :: at <= k < at + n ==> lens[k] == x)
    && (at + n == |lens| || lens[at + n] != x)
  }

  lemma {:induction false} Grows(lens: seq<nat>, at: nat, prev: int, count: nat, k: nat)
    requires at + k < |lens| && (forall i :: at <= i <= at + k ==> lens[i] == lens[at])
    requires count + k < MaxCount(prev, lens[at])
    ensures Rle(lens, at, prev, count) == Rle(lens, at + k, prev, count + k)
    decreases k
  {
    hide Run;
    if k != 0 {
      assert lens[at + 1] == lens[at];
      Grows(lens, at + 1, prev, count + 1, k - 1);
    }
  }

  /** A piece of a run, as long as may be. */
  lemma Piece(lens: seq<nat>, at: nat, x: nat, n: nat, prev: int, c: nat)
    requires RunAt(lens, at, x, n) && 1 <= c <= n && c <= MaxCount(prev, x) && (c == n || c == MaxCount(prev, x))
    ensures Rle(lens, at, prev, 0) == Run(prev, x, c) + Rle(lens, at + c, x, 0)
  {
    hide Run;
    assert forall i :: at <= i <= at + (c - 1) ==> lens[i] == lens[at];
    Grows(lens, at, prev, 0, c - 1);
  }

  /** A run is sent so, wherever it stands. */
  lemma {:induction false} RunIsCoded(lens: seq<nat>, at: nat, x: nat, n: nat, prev: int)
    requires RunAt(lens, at, x, n) && n >= 1
    ensures Rle(lens, at, prev, 0) == Coded(prev, x, n) + Rle(lens, at + n, x, 0)
    decreases n
  {
    hide Rle, Run;
    var most := if x == 0 then 138 else if prev == x then 6 else 7;
    var c := if n < most then n else most;
    Piece(lens, at, x, n, prev, c);
    PieceIs(prev, x, c);
    if c < n {
      assert forall k :: at + c <= k < at + n ==> lens[k] == x;
      RunIsCoded(lens, at + c, x, n - c, x);
      MoreIs(prev, x, n);
    }
  }

  lemma PieceIs(prev: int, x: nat, c: nat)
    requires 1 <= c <= if x == 0 then 138 else if prev == x then 6 else 7
    ensures Run(prev, x, c) == Coded(prev, x, c)
  {
  }

  lemma MoreIs(prev: int, x: nat, n: nat)
    requires n > if x == 0 then 138 else if prev == x then 6 else 7
    ensures var c := if x == 0 then 138 else if prev == x then 6 else 7;
      Coded(prev, x, n) == Coded(prev, x, c) + Coded(x, x, n - c)
  {
  }
}
