/** lzo1x_optimize: turn matches that cost as much as the bytes they stand for into
    literals, in place, while decompressing. */
module LzoOptimize {
  import opened Bits
  import opened Lzo1x
  import opened LzoRewrite
  import opened LzoState

  datatype Status = OK | EofNotFound | InputNotConsumed | InputOverrun

  /** The bytes of a short match, which may repeat what it has just copied. */
  lemma TwoBytes(out: seq<byte>, dist: nat)
    requires 1 <= dist <= |out|
    ensures var m := |out| - dist;
            CopyMatch(out, 2, dist) == out + [out[m], if dist == 1 then out[m] else out[m + 1]]
  {
    var m := |out| - dist;
    var one := out + [out[m]];
    assert Inflate.CopyMatch(one, 1, dist) == one + [one[|one| - dist]];
  }

  lemma ThreeBytes(out: seq<byte>, dist: nat)
    requires 1 <= dist <= |out|
    ensures var m := |out| - dist;
            CopyMatch(out, 3, dist)
              == out + [out[m], if dist == 1 then out[m] else out[m + 1],
                        if dist == 1 || dist == 2 then out[m] else out[m + 2]]
  {
    var m := |out| - dist;
    var one := out + [out[m]];
    var two := one + [one[|one| - dist]];
    assert Inflate.CopyMatch(one, 2, dist) == Inflate.CopyMatch(two, 1, dist) == two + [two[|two| - dist]];
  }

  lemma CopyStep(out: seq<byte>, len: nat, dist: nat)
    requires 1 <= dist <= |out| && len >= 1
    ensures CopyMatch(out, len, dist) == CopyMatch(out + [out[|out| - dist]], len - 1, dist)
  {
  }

  class Optimizer {
    const inp: array<byte>
    const outp: array<byte>
    var ip: nat
    var op: nat
    var litp: int           // -1 for NULL
    var lit: nat
    var nextLit: int        // -1 for NO_LIT
    ghost const s0: seq<byte>
    ghost var info: Literals

    ghost predicate Bounds()
      reads this
    {
      inp != outp && ip <= inp.Length && op <= outp.Length
    }

    ghost predicate Sane()
      reads this
    {
      && Bounds() && inp.Length == |s0| && litp < inp.Length
      && Decode(s0).Complete? && |Decode(s0).out| <= outp.Length
    }

    /** What is known at a label. */
    ghost predicate Holds(l: Label)
      reads this, inp, outp
    {
      && Sane()
      && var s, out := inp[..], outp[..op];
      match l
      case AtTop => nextLit == -1 && TopOk(s0, s, ip, out) && Placed(info, s, litp, lit, ip, out)
      case AtRun(t) =>
        && t >= 1 && ip + t + 3 <= |s| && nextLit == -1
        && BothAt(s0, s, ip + t + 3, AfterLong, out + s[ip..ip + t + 3])
        && Placed(info, s, litp, lit, ip + t + 3, out + s[ip..ip + t + 3])
      case AtFirstRun(t) =>
        && t >= 1 && ip + t <= |s| && nextLit == -1
        && BothAt(s0, s, ip + t, AfterLong, out + s[ip..ip + t])
        && Placed(info, s, litp, lit, ip + t, out + s[ip..ip + t])
      case AtAfterRun =>
        nextLit == -1 && BothAt(s0, s, ip, AfterLong, out) && Placed(info, s, litp, lit, ip, out)
      case AtMatch(t) =>
        ip >= 1 && nextLit == -1 && MatchOk(s0, s, ip - 1, out) && t == s[ip - 1] && Placed(info, s, litp, lit, ip - 1, out)
      case AtNear(t) =>
        && ip >= 1 && nextLit == -1 && NearOk(s0, s, ip - 1, out, AfterShort) && t == s[ip - 1] && !info.Long?
        && Placed(info, s, litp, lit, ip - 1, out)
      case AtMatchDone =>
        && ip >= 2
        && if nextLit == -1 then BothMatched(s0, s, ip, out) && s[ip - 2] == s0[ip - 2]
           else nextLit == 0 && TopOk(s0, s, ip, out) && Placed(info, s, litp, lit, ip, out)
      case AtNext(t) =>
        && t >= 1 && ip + t <= |s| && nextLit == -1 && !info.Long?
        && BothAt(s0, s, ip + t, AfterShort, out + s[ip..ip + t])
        && Placed(info, s, litp, lit, ip + t, out + s[ip..ip + t])
      case AtEnd => Decode(s0) == Complete(out, ip) && Decode(s) == Complete(out, ip)
    }

    constructor (source: array<byte>, target: array<byte>)
      requires source != target && Decode(source[..]).Complete? && |Decode(source[..]).out| <= target.Length
      ensures inp == source && outp == target && s0 == source[..] && Sane()
      ensures ip == 0 && op == 0 && litp == -1 && nextLit == -1 && info == Unknown
    {
      inp, outp := source, target;
      ip, op, litp, lit, nextLit := 0, 0, -1, 0, -1;
      s0 := source[..];
      info := Unknown;
    }

    /** *op++ = *ip++, n times. */
    method CopyLiterals(n: nat)
      requires Bounds() && ip + n <= inp.Length && op + n <= outp.Length
      modifies this`ip, this`op, outp
      ensures ip == old(ip) + n && op == old(op) + n
      ensures outp[..op] == old(outp[..op]) + inp[old(ip)..ip]
    {
      var i := 0;
      while i < n
        invariant 0 <= i <= n && ip == old(ip) + i && op == old(op) + i
        invariant outp[..op] == old(outp[..op]) + inp[old(ip)..ip]
      {
        outp[op] := inp[ip];
        op := op + 1;
        ip := ip + 1;
        i := i + 1;
      }
    }

    /** *op++ = *m_pos++, n times; what is copied may itself have been copied just now. */
    method CopyBack(mPos: nat, n: nat)
      requires Bounds() && mPos < op && op + n <= outp.Length
      modifies this`op, outp
      ensures op == old(op) + n
      ensures outp[..op] == CopyMatch(old(outp[..op]), n, old(op) - mPos)
    {
      hide CopyMatch;
      ghost var out, dist := outp[..op], op - mPos;
      var i := 0;
      while i < n
        invariant 0 <= i <= n && op == old(op) + i
        invariant CopyMatch(outp[..op], n - i, dist) == CopyMatch(out, n, dist)
      {
        CopyStep(outp[..op], n - i, dist);
        ghost var before := outp[..op];
        outp[op] := outp[mPos + i];
        op := op + 1;
        assert outp[..op] == before + [before[|before| - dist]];
        i := i + 1;
      }
      NothingToCopy(outp[..op], dist);
    }

    /** A count in several bytes: 255 for each zero, then the byte that ends it. */
    method ReadCount(base: nat) returns (t: nat)
      requires Bounds() && LongCount(inp[..], ip, base).Counted?
      modifies this`ip
      ensures Counted(t, ip) == LongCount(inp[..], old(ip), base)
    {
      t := base;
      while inp[ip] == 0
        invariant ip <= inp.Length && LongCount(inp[..], ip, t) == LongCount(inp[..], old(ip), base)
        invariant LongCount(inp[..], ip, t).Counted?
        decreases inp.Length - ip
      {
        t := t + 255;
        ip := ip + 1;
      }
      t := t + inp[ip];
      ip := ip + 1;
    }

    /** copy2: two bytes that may overlap their source. */
    method Copy2(at: nat, mPos: nat, off: nat)
      requires Bounds() && at + 2 <= inp.Length && 1 <= off && mPos + off == op
      modifies inp
      ensures inp[..] == old(inp[..])[at := inp[at]][at + 1 := inp[at + 1]]
      ensures outp[..op] + inp[at..at + 2] == CopyMatch(outp[..op], 2, off)
    {
      hide CopyMatch;
      TwoBytes(outp[..op], off);
      inp[at] := outp[mPos];
      if off == 1 {
        inp[at + 1] := outp[mPos];
      } else {
        inp[at + 1] := outp[mPos + 1];
      }
    }

    /** copy3. */
    method Copy3(at: nat, mPos: nat, off: nat)
      requires Bounds() && at + 3 <= inp.Length && 1 <= off && mPos + off == op
      modifies inp
      ensures inp[..] == old(inp[..])[at := inp[at]][at + 1 := inp[at + 1]][at + 2 := inp[at + 2]]
      ensures outp[..op] + inp[at..at + 3] == CopyMatch(outp[..op], 3, off)
    {
      hide CopyMatch;
      ThreeBytes(outp[..op], off);
      inp[at] := outp[mPos];
      if off == 1 {
        inp[at + 1] := outp[mPos];
        inp[at + 2] := outp[mPos];
      } else if off == 2 {
        inp[at + 1] := outp[mPos + 1];
        inp[at + 2] := outp[mPos];
      } else {
        inp[at + 1] := outp[mPos + 1];
        inp[at + 2] := outp[mPos + 2];
      }
    }

    /** memmove(litp + 1, litp, n) */
    method MoveUp(at: nat, n: nat)
      requires at + n + 1 <= inp.Length
      modifies inp
      ensures inp[at + 1..at + n + 1] == old(inp[at..at + n])
      ensures forall i :: 0 <= i < inp.Length && !(at + 1 <= i < at + n + 1) ==> inp[i] == old(inp[i])
    {
      forall i | at + 1 <= i < at + n + 1 {
        inp[i] := inp[i - 1];
      }
    }

    /** copy2 or copy3. */
    method CopyShort(at: nat, mPos: nat, k: nat)
      requires Bounds() && 2 <= k <= 3 && at + k <= inp.Length && mPos < op
      modifies inp
      ensures forall i :: 0 <= i < inp.Length && !(at <= i < at + k) ==> inp[i] == old(inp[i])
      ensures outp[..op] + inp[at..at + k] == CopyMatch(outp[..op], k, op - mPos)
    {
      hide CopyMatch;
      if k == 2 {
        Copy2(at, mPos, op - mPos);
      } else {
        Copy3(at, mPos, op - mPos);
      }
    }

    /** A match of k bytes, just read, becomes part of the short run before it. */
    method Extend(mPos: nat, k: nat, ghost q: nat, ghost b: seq<byte>)
      requires Sane() && 2 <= k <= 3 && mPos < op && k <= ip < inp.Length && lit + k == 3
      requires Placed(Short(q, b), inp[..], litp, lit, ip - k, outp[..op])
      requires OriginAt(s0, inp[..], ip, CopyMatch(outp[..op], k, op - mPos)) && inp[ip] >= 16
      modifies this`lit, this`nextLit, inp
      ensures nextLit == 0 && TopOk(s0, inp[..], ip, CopyMatch(outp[..op], k, op - mPos))
      ensures Placed(Short(q, b), inp[..], litp, lit, ip, CopyMatch(outp[..op], k, op - mPos))
    {
      hide CopyMatch, OriginAt, TopOk, StableMatched, Decode;
      ghost var s := inp[..];
      nextLit := 0;
      lit := lit + k;
      inp[litp] := WithoutCount(inp[litp]) + lit;
      CopyShort(ip - k, mPos, k);
      ExtendOk(s0, s, inp[..], q, b, 3 - k, ip - k, outp[..op], k, CopyMatch(outp[..op], k, op - mPos));
    }

    /** Move the literals up by one and put a header of a long run before them. */
    method MakeHeader(more: nat)
      requires Bounds() && 0 <= litp && litp + 2 + lit < inp.Length && 1 <= lit + more - 3 <= 15
      modifies this`litp, this`lit, inp
      ensures litp == old(litp) + 2 && lit == old(lit) + more
      ensures inp[litp] == lit - 3 && inp[litp + 1..litp + 1 + old(lit)] == old(inp[litp + 2..litp + 2 + lit])
      ensures forall i :: 0 <= i < inp.Length && !(litp <= i <= litp + old(lit)) ==> inp[i] == old(inp[i])
    {
      litp := litp + 2;
      if lit > 0 {
        MoveUp(litp, lit);
      }
      ghost var moved := inp[..];
      assert moved[litp + 1..litp + 1 + lit] == old(inp[litp + 2..litp + 2 + lit]);
      lit := lit + more;
      inp[litp] := lit - 3;
      SameBytes(moved, inp[..], litp + 1, litp + 1 + old(lit));
    }

    /** The bytes of the new run, in place. */
    method RewriteShort(mPos: nat, k: nat, ghost q: nat) returns (t: nat, ghost m: seq<byte>)
      requires Bounds() && 2 <= k <= 3 && mPos < op && 2 <= q && litp == q - 2 && q + lit + k == ip < inp.Length
      requires 1 <= inp[ip] && lit + k + inp[ip] < 16
      modifies this`ip, this`litp, this`lit, inp
      ensures ip == old(ip) + 1 && litp == q && t == old(inp[ip]) && lit == old(lit) + k + t + 3
      ensures Rewritten(old(inp[..]), inp[..], q, old(lit), q + old(lit), k, t, m)
      ensures outp[..op] + m == CopyMatch(outp[..op], k, op - mPos)
    {
      hide CopyMatch, WithoutCount, Rewritten;
      ghost var s, n := inp[..], lit;
      t := inp[ip];
      ip := ip + 1;
      inp[litp] := WithoutCount(inp[litp]);
      CopyShort(ip - k, mPos, k);
      ghost var s1 := inp[..];
      m := s1[ip - k..ip];
      MakeHeader(k + t + 3);
      RewrittenInSteps(s, s1, inp[..], q, n, q + n, k, t);
    }

    /** A match of k bytes, just read, joins the short run before it and the long one
        behind it. */
    method JoinShort(mPos: nat, k: nat, ghost q: nat, ghost b: seq<byte>) returns (t: nat)
      requires Sane() && 2 <= k <= 3 && mPos < op && k <= ip < inp.Length && nextLit == -1
      requires Placed(Short(q, b), inp[..], litp, lit, ip - k, outp[..op])
      requires OriginAt(s0, inp[..], ip, CopyMatch(outp[..op], k, op - mPos))
      requires 1 <= inp[ip] && lit + k + inp[ip] < 16 && op + k <= outp.Length
      modifies this`ip, this`op, this`litp, this`lit, this`info, inp, outp
      ensures Holds(AtRun(t)) && ip == old(ip) + 1 && t == old(inp[ip])
    {
      hide CopyMatch, OriginAt, BothAt, Decode, Placed, Rewritten;
      ghost var s, out, n := inp[..], outp[..op], lit;
      ShortPlaced(q, b, s, litp, lit, ip - k, out);
      ghost var m;
      t, m := RewriteShort(mPos, k, q);
      JoinShortOk(s0, s, inp[..], q, b, n, ip - 1 - k, out, k, t, m, CopyMatch(out, k, op - mPos));
      info := Long(q, b);
      CopyBack(mPos, k);
    }

    /** A match of three bytes between two long runs joins them. */
    method JoinLong(mPos: nat, ghost h: nat, ghost b: seq<byte>) returns (t: nat)
      requires Sane() && mPos < op && 2 <= ip < inp.Length && nextLit == -1
      requires info == Long(h, b) && Placed(info, inp[..], litp, lit, ip - 2, outp[..op])
      requires OriginAt(s0, inp[..], ip, CopyMatch(outp[..op], 3, op - mPos))
      requires 1 <= inp[ip] && lit + 3 + inp[ip] < 16 && op + 3 <= outp.Length
      modifies this`ip, this`op, this`lit, inp, outp
      ensures Holds(AtRun(t)) && ip == old(ip) + 1 && t == old(inp[ip])
    {
      hide CopyMatch, OriginAt, BothAt, Decode, StableAt, Placed;
      ghost var s, out, n := inp[..], outp[..op], lit;
      ghost var out2 := CopyMatch(out, 3, op - mPos);
      LongPlaced(h, b, s, litp, lit, ip - 2, out);
      t := inp[ip];
      ip := ip + 1;
      CopyShort(ip - 3, mPos, 3);
      lit := lit + 3 + t + 3;
      inp[litp] := lit - 3;
      JoinLongOk(s0, s, inp[..], h, b, n, ip - 3, out, t, out2);
      CopyBack(mPos, 3);
    }

    // ---------- when a match is rewritten ----------

    /** A match of k bytes that ends at q has no literals behind it, but another match,
        and could be counted with the 3 - k literals before it. */
    ghost predicate Extends(q: nat, k: nat)
      reads this, inp
    {
      litp >= 0 && 2 <= q < inp.Length && inp[q - 2] % 4 == 0 && lit + k == 3 && inp[q] >= 16
    }

    /** It stands between a short run and a long one, which together with it still have a
        header of one byte. */
    ghost predicate JoinsShort(q: nat, k: nat)
      reads this, inp
    {
      litp >= 0 && 2 <= q < inp.Length && inp[q - 2] % 4 == 0 && lit <= 3 && 1 <= inp[q] < 16 && lit + k + inp[q] < 16
    }

    /** The same with two long runs. */
    ghost predicate JoinsLong(q: nat)
      reads this, inp
    {
      litp >= 0 && 2 <= q < inp.Length && inp[q - 2] % 4 == 0 && lit > 3 && 1 <= inp[q] < 16 && lit + 3 + inp[q] < 16
    }

    // ---------- the labels ----------

    /** The outer loop: a literal run or a match. */
    method Top() returns (l: Label)
      requires Holds(AtTop) && ip < inp.Length
      modifies this`ip, this`litp, this`lit, this`info
      ensures Holds(l) && (l.AtRun? || l.AtMatch?) && ip > old(ip)
    {
      hide TopOk, MatchOk, BothAt, Decode, StableAt, LongCount, StableMatched, Placed;
      TopContinues(s0, inp[..], ip, outp[..op]);
      if inp[ip] >= 16 {
        ip := ip + 1;
        return AtMatch(inp[ip - 1]);
      }
      l := LongRun();
    }

    /** A long run of literals starts here. */
    method LongRun() returns (l: Label)
      requires Holds(AtTop) && ip < inp.Length && inp[ip] < 16
      modifies this`ip, this`litp, this`lit, this`info
      ensures Holds(l) && l.AtRun? && ip > old(ip)
    {
      hide TopOk, MatchOk, BothAt, Decode, StableAt, LongCount, StableMatched, Placed;
      ghost var p, before := ip, outp[..op];
      var t: nat := inp[ip];
      ip := ip + 1;
      ghost var c := TopRun(s0, inp[..], p, outp[..op]);
      litp := ip - 1;
      if t == 0 {
        t := ReadCount(15);
      }
      lit := t + 3;
      info := Long(p, before);
      CountAbove(inp[..], p + 1, 15);
      RunPlaced(inp[..], p, before, c);
      return AtRun(t);
    }

    method CopyRun(t: nat) returns (l: Label)
      requires Holds(AtRun(t))
      modifies this`ip, this`op, outp
      ensures Holds(l) && l.AtFirstRun? && ip > old(ip)
    {
      hide BothAt, Decode, Placed;
      RunFits(s0, inp[..], ip + t + 3, AfterLong, outp[..op] + inp[ip..ip + t + 3]);
      Cut(inp[..], ip, ip + 3, ip + t + 3);
      Joined(outp[..op], inp[ip..ip + 3], inp[ip + 3..ip + t + 3]);
      CopyLiterals(3);
      return AtFirstRun(t);
    }

    method FirstRun(t: nat) returns (l: Label)
      requires Holds(AtFirstRun(t))
      modifies this`ip, this`op, outp
      ensures Holds(l) && l.AtAfterRun? && ip > old(ip)
    {
      hide BothAt, Decode, Placed;
      RunFits(s0, inp[..], ip + t, AfterLong, outp[..op] + inp[ip..ip + t]);
      CopyLiterals(t);
      return AtAfterRun;
    }

    /** Behind a long run: a match of three bytes from far away, or any other. */
    method AfterRun() returns (l: Label)
      requires Holds(AtAfterRun)
      modifies this`ip, this`op, this`lit, outp
      ensures Holds(l) && (l.AtMatch? || l.AtMatchDone?) && ip > old(ip)
    {
      hide BothAt, Decode, MatchOk, NearOk, BothMatched, CopyMatch, StableAt, StableMatched;
      ghost var s, out := inp[..], outp[..op];
      ShortContinues(s0, s, ip, AfterLong, out);
      var t: nat := inp[ip];
      ip := ip + 1;
      if t >= 16 {
        return AtMatch(t);
      }
      NearContinues(s0, s, ip - 1, out, AfterLong);
      NearMatched(s0, s, ip - 1, out, AfterLong);
      var mPos: int := op - 1 - 0x800;
      mPos := mPos - t / 4;
      var hi: nat := inp[ip];
      mPos := mPos - hi * 4;
      ip := ip + 1;
      CopyBack(mPos, 3);
      lit := 0;
      return AtMatchDone;
    }

    /** A match of k bytes, read but not yet copied: turn it into literals if one of the
        rewritings applies. */
    method Choose(mPos: nat, k: nat) returns (l: Label)
      requires Sane() && 2 <= k <= 3 && mPos < op && k <= ip <= inp.Length && op + k <= outp.Length && nextLit == -1
      requires Placed(info, inp[..], litp, lit, ip - k, outp[..op]) && (k == 2 ==> !info.Long?)
      requires BothMatched(s0, inp[..], ip, CopyMatch(outp[..op], k, op - mPos)) && inp[ip - 2] == s0[ip - 2]
      modifies this`ip, this`op, this`litp, this`lit, this`nextLit, this`info, inp, outp
      ensures Holds(l) && ip >= old(ip)
      ensures l == if old(JoinsShort(ip, k)) then AtRun(old(inp[ip])) else AtMatchDone
      ensures l.AtMatchDone? ==> (nextLit == 0 <==> old(Extends(ip, k)))
      ensures l.AtMatchDone? && nextLit == -1 ==> inp[..] == old(inp[..])
    {
      hide Decode, BothMatched, CopyMatch, StableAt, StableMatched, BothAt, TopOk, OriginAt, Extends, JoinsShort, Placed;
      ghost var s, out := inp[..], outp[..op];
      if litp >= 0 && inp[ip - 2] % 4 == 0 {
        TopBehind(s0, s, ip, CopyMatch(out, k, op - mPos));
        ShortBefore(info, s, litp, lit, ip - k, out);
      }
      var extend, join := WhatNext(k);
      if extend {
        Extend(mPos, k, info.q, info.before);
      } else if join {
        var t := JoinShort(mPos, k, info.q, info.before);
        return AtRun(t);
      }
      CopyBack(mPos, k);
      return AtMatchDone;
    }

    /** Which rewriting applies to a match of k bytes that ends here. */
    method WhatNext(k: nat) returns (extend: bool, join: bool)
      requires litp < inp.Length && 2 <= ip <= inp.Length && 2 <= k <= 3
      requires litp >= 0 && inp[ip - 2] % 4 == 0 ==> ip < inp.Length
      ensures extend == Extends(ip, k) && join == JoinsShort(ip, k)
      ensures extend ==> ip < inp.Length && litp >= 0 && inp[ip - 2] % 4 == 0 && lit + k == 3 && inp[ip] >= 16
      ensures join ==> ip < inp.Length && litp >= 0 && inp[ip - 2] % 4 == 0 && lit <= 3 && 1 <= inp[ip] && lit + k + inp[ip] < 16
    {
      extend, join := false, false;
      if litp >= 0 {
        var nl := inp[ip - 2] % 4;
        if nl == 0 && lit + k == 3 && inp[ip] >= 16 {
          extend := true;
        } else if nl == 0 && lit <= 3 && inp[ip] < 16 && inp[ip] != 0 && lit + k + inp[ip] < 16 {
          join := true;
        }
      }
    }

    /** Behind a short run: a match of two bytes, unless it is better sent as literals. */
    method Near(t: nat) returns (l: Label)
      requires Holds(AtNear(t))
      modifies this`ip, this`op, this`litp, this`lit, this`nextLit, this`info, inp, outp
      ensures Holds(l) && (l.AtRun? || l.AtMatchDone?) && ip > old(ip)
      ensures l.AtRun? <==> old(JoinsShort(ip + 1, 2))
      ensures l.AtMatchDone? ==> (nextLit == 0 <==> old(Extends(ip + 1, 2)))
      ensures l.AtMatchDone? && nextLit == -1 ==> inp[..] == old(inp[..])
    {
      hide Decode, NearOk, BothMatched, CopyMatch, StableAt, StableMatched, Placed;
      NearContinues(s0, inp[..], ip - 1, outp[..op], AfterShort);
      NearMatched(s0, inp[..], ip - 1, outp[..op], AfterShort);
      var mPos: int := op - 1;
      mPos := mPos - t / 4;
      var hi: nat := inp[ip];
      mPos := mPos - hi * 4;
      ip := ip + 1;
      l := Choose(mPos, 2);
    }

    /** A M2 match of len bytes, read but not yet copied. */
    method ChooseLong(mPos: nat, len: nat) returns (l: Label)
      requires Sane() && 3 <= len && mPos < op && 2 <= ip <= inp.Length && op + len <= outp.Length && nextLit == -1
      requires Placed(info, inp[..], litp, lit, ip - 2, outp[..op])
      requires BothMatched(s0, inp[..], ip, CopyMatch(outp[..op], len, op - mPos)) && inp[ip - 2] == s0[ip - 2]
      modifies this`ip, this`op, this`lit, inp, outp
      ensures Holds(l) && ip >= old(ip)
      ensures l == if len == 3 && old(JoinsLong(ip)) then AtRun(old(inp[ip])) else AtMatchDone
      ensures l.AtMatchDone? ==> inp[..] == old(inp[..])
    {
      hide Decode, BothMatched, CopyMatch, StableAt, StableMatched, BothAt, OriginAt, JoinsLong, Placed;
      ghost var s, out := inp[..], outp[..op];
      if len == 3 && litp >= 0 && inp[ip - 2] % 4 == 0 {
        TopBehind(s0, s, ip, CopyMatch(out, 3, op - mPos));
        ShortBefore(info, s, litp, lit, ip - 2, out);
      }
      var join := false;
      if len == 3 {
        join := WhatNextLong();
      }
      if join {
        var t := JoinLong(mPos, info.h, info.before);
        return AtRun(t);
      }
      CopyBack(mPos, len);
      return AtMatchDone;
    }

    /** Whether a match of three bytes that ends here is between two long runs. */
    method WhatNextLong() returns (join: bool)
      requires litp < inp.Length && 2 <= ip <= inp.Length
      requires litp >= 0 && inp[ip - 2] % 4 == 0 ==> ip < inp.Length
      ensures join == JoinsLong(ip)
      ensures join ==> ip < inp.Length && litp >= 0 && inp[ip - 2] % 4 == 0 && lit > 3 && 1 <= inp[ip] && lit + 3 + inp[ip] < 16
    {
      if litp < 0 {
        return false;
      }
      var nl := inp[ip - 2] % 4;
      return lit > 3 && nl == 0 && inp[ip] < 16 && inp[ip] != 0 && lit + 3 + inp[ip] < 16;
    }

    /** A match whose first byte is at least 64. */
    method MatchM2(t0: nat) returns (l: Label)
      requires Holds(AtMatch(t0)) && t0 >= 64
      modifies this`ip, this`op, this`lit, inp, outp
      ensures Holds(l) && (l.AtRun? || l.AtMatchDone?) && ip > old(ip)
      ensures l.AtRun? <==> t0 < 96 && old(JoinsLong(ip + 1))
      ensures l.AtMatchDone? ==> inp[..] == old(inp[..])
    {
      hide Decode, MatchOk, BothMatched, CopyMatch, StableAt, StableMatched, ReadFar, Placed;
      ghost var s, out := inp[..], outp[..op];
      MatchContinues(s0, s, ip - 1, out);
      MatchRoom(s0, s, ip - 1, out);
      var t := t0;
      var mPos: int := op - 1;
      mPos := mPos - t / 4 % 8;
      var hi: nat := inp[ip];
      mPos := mPos - hi * 8;
      ip := ip + 1;
      t := t / 32 - 1;
      l := ChooseLong(mPos, t + 2);
    }

    /** The length and the place of a match whose first byte is from 16 to 63: M3 or
        M4, which may also be the end mark. */
    method ReadFarMatch(t0: nat) returns (t: nat, mPos: int, end: bool)
      requires Bounds() && 1 <= ip && inp[ip - 1] == t0 && 16 <= t0 < 64 && !ReadMatch(inp[..], ip - 1).Broken?
      modifies this`ip
      ensures ip <= inp.Length && ip == ReadMatch(inp[..], old(ip) - 1).next
      ensures end <==> ReadMatch(inp[..], old(ip) - 1).EndMark?
      ensures !end ==> mPos <= op && ReadMatch(inp[..], old(ip) - 1) == Copy(t + 2, op - mPos, ip)
      ensures !end && t == 1 ==> ip == old(ip) + 2
    {
      t := t0;
      if t >= 32 {
        t := t % 32;
        if t == 0 {
          t := ReadCount(31);
          CountAbove(inp[..], old(ip), 31);
        }
        mPos := op - 1;
        mPos := mPos - inp[ip] / 4;
        ip := ip + 1;
        var hi: nat := inp[ip];
        mPos := mPos - hi * 64;
        ip := ip + 1;
        end := false;
      } else {
        mPos := op;
        mPos := mPos - t / 8 % 2 * 0x4000;
        t := t % 8;
        if t == 0 {
          t := ReadCount(7);
          CountAbove(inp[..], old(ip), 7);
        }
        mPos := mPos - inp[ip] / 4;
        ip := ip + 1;
        var hi: nat := inp[ip];
        mPos := mPos - hi * 64;
        ip := ip + 1;
        end := mPos == op;
        mPos := mPos - 0x4000;
      }
    }

    /** A match whose first byte is from 16 to 63. */
    method MatchFar(t0: nat) returns (l: Label)
      requires Holds(AtMatch(t0)) && 16 <= t0 < 64
      modifies this`ip, this`op, this`litp, this`lit, this`nextLit, this`info, inp, outp
      ensures Holds(l) && (l.AtRun? || l.AtMatchDone? || l.AtEnd?) && ip > old(ip)
      ensures var i := old(ReadMatch(inp[..], ip - 1));
              && (l.AtEnd? <==> i.EndMark?)
              && (l.AtRun? <==> i.Copy? && i.len == 3 && old(JoinsShort(ip + 2, 3)))
              && (l.AtMatchDone? ==> (nextLit == 0 <==> i.Copy? && i.len == 3 && old(Extends(ip + 2, 3))))
              && (!l.AtRun? && nextLit == -1 ==> inp[..] == old(inp[..]))
    {
      hide Decode, MatchOk, BothMatched, CopyMatch, StableAt, StableMatched, ReadMatch, Placed;
      ghost var s, out := inp[..], outp[..op];
      MatchContinues(s0, s, ip - 1, out);
      MatchRoom(s0, s, ip - 1, out);
      var t, mPos, end := ReadFarMatch(t0);
      if end {
        return AtEnd;
      }
      if t == 1 {
        l := Choose(mPos, 3);
      } else {
        CopyBack(mPos, t + 2);
        l := AtMatchDone;
      }
    }

    method MatchDone() returns (l: Label)
      requires Holds(AtMatchDone)
      modifies this`litp, this`lit, this`nextLit, this`info
      ensures Holds(l) && (l.AtTop? || l.AtNext?)
    {
      hide Decode, BothMatched, StableAt, StableMatched, BothAt, TopOk;
      var t: nat;
      if nextLit == -1 {
        MatchedContinues(s0, inp[..], ip, outp[..op]);
        t := inp[ip - 2] % 4;
        lit := t;
        litp := ip - 2;
        info := Short(ip, outp[..op]);
        assert outp[..op] + inp[ip..ip] == outp[..op];
      } else {
        t := nextLit;
      }
      nextLit := -1;
      return if t == 0 then AtTop else AtNext(t);
    }

    method Next(t: nat) returns (l: Label)
      requires Holds(AtNext(t))
      modifies this`ip, this`op, outp
      ensures Holds(l) && (l.AtMatch? || l.AtNear?) && ip > old(ip) && ip < inp.Length
    {
      hide Decode, BothAt, StableAt, StableMatched, MatchOk, NearOk, Placed;
      RunFits(s0, inp[..], ip + t, AfterShort, outp[..op] + inp[ip..ip + t]);
      CopyLiterals(t);
      ShortContinues(s0, inp[..], ip, AfterShort, outp[..op]);
      var first: nat := inp[ip];
      ip := ip + 1;
      return if first >= 16 then AtMatch(first) else AtNear(first);
    }

    /** The first byte of a block. */
    method Start() returns (l: Label)
      requires Sane() && s0 == inp[..] && ip == 0 && op == 0 && litp == -1 && nextLit == -1 && info == Unknown
      modifies this`ip
      ensures Holds(l)
    {
      hide Run;
      StartStable(s0);
      var t: nat := inp[ip];
      if t > 17 {
        t := t - 17;
        ip := ip + 1;
        assert outp[..op] + inp[ip..ip + t] == s0[1..1 + t];
        return if t < 4 then AtNext(t) else AtFirstRun(t);
      }
      assert outp[..op] == [];
      return AtTop;
    }

    /** What remains to be done at a label. */
    ghost function Left(l: Label): nat
      requires ip <= inp.Length
      reads this`ip
    {
      2 * (inp.Length - ip) + (if l.AtMatchDone? then 1 else 0)
    }

    /** Optimize a whole block. */
    method Optimize() returns (r: Status, outLen: nat)
      requires Sane() && s0 == inp[..] && ip == 0 && op == 0 && litp == -1 && nextLit == -1 && info == Unknown
      modifies this, inp, outp
      ensures Decode(inp[..]) == Decode(s0)
      ensures outLen <= outp.Length && outp[..outLen] == Decode(s0).out
      ensures r == if Decode(s0).pos == inp.Length then OK else InputNotConsumed
    {
      hide Decode, TopOk, MatchOk, NearOk, BothAt, BothMatched, Placed;
      var l := Start();
      while !l.AtEnd?
        invariant Holds(l)
        decreases Left(l)
      {
        l := Step(l);
      }
      outLen := op;
      r := if ip == inp.Length then OK else if ip < inp.Length then InputNotConsumed else InputOverrun;
    }

    /** From one label to the next. */
    method Step(l: Label) returns (l': Label)
      requires Holds(l) && !l.AtEnd?
      modifies this, inp, outp
      ensures Holds(l') && Left(l') < old(Left(l))
    {
      hide Decode, TopOk, MatchOk, NearOk, BothAt, BothMatched, Placed;
      match l
      case AtTop =>
        TopContinues(s0, inp[..], ip, outp[..op]);
        l' := Top();
      case AtRun(t) => l' := CopyRun(t);
      case AtFirstRun(t) => l' := FirstRun(t);
      case AtAfterRun => l' := AfterRun();
      case AtMatch(t) =>
        MatchAtLeast(s0, inp[..], ip - 1, outp[..op]);
        if t >= 64 {
          l' := MatchM2(t);
        } else {
          l' := MatchFar(t);
        }
      case AtNear(t) => l' := Near(t);
      case AtMatchDone => l' := MatchDone();
      case AtNext(t) => l' := Next(t);
    }
  }

  /** Optimize a block in place. It keeps its length and decodes to what it did, and
      that is what target holds. */
  method Lzo1xOptimize(source: array<byte>, target: array<byte>) returns (r: Status, outLen: nat)
    requires source != target && Decode(source[..]).Complete? && |Decode(source[..]).out| <= target.Length
    modifies source, target
    ensures Decode(source[..]) == old(Decode(source[..]))
    ensures outLen <= target.Length && target[..outLen] == old(Decode(source[..])).out
    ensures r == if old(Decode(source[..])).pos == source.Length then OK else InputNotConsumed
  {
    hide Decode;
    var o := new Optimizer(source, target);
    r, outLen := o.Optimize();
  }

  /** A near match has room in the output, and leaves the bytes behind it alone. */
  lemma NearMatched(s0: seq<byte>, s: seq<byte>, p: nat, out: seq<byte>, mode: Mode)
    requires NearOk(s0, s, p, out, mode) && Decode(s0).Complete? && p + 2 <= |s|
    requires ReadNear(s, p, mode).Copy? && ReadNear(s, p, mode).dist <= |out|
    requires BothMatched(s0, s, p + 2, CopyMatch(out, ReadNear(s, p, mode).len, ReadNear(s, p, mode).dist))
    ensures s[p] == s0[p] && |out| + ReadNear(s, p, mode).len <= |Decode(s0).out|
  {
    hide Decode, Run, CopyMatch, StableAt, StableMatched;
    UntouchedAt(s0, s, p, p);
    var i := ReadNear(s, p, mode);
    RunExtends(s0, p + 2, Matched, CopyMatch(out, i.len, i.dist));
  }

  /** A match has room in the output, and leaves the bytes behind it alone. */
  lemma MatchRoom(s0: seq<byte>, s: seq<byte>, p: nat, out: seq<byte>)
    requires MatchOk(s0, s, p, out) && Decode(s0).Complete? && !ReadMatch(s, p).Broken?
    requires ReadMatch(s, p).Copy? ==>
               && ReadMatch(s, p).dist <= |out|
               && BothMatched(s0, s, ReadMatch(s, p).next, CopyMatch(out, ReadMatch(s, p).len, ReadMatch(s, p).dist))
    ensures s[p] >= 16
    ensures ReadMatch(s, p).Copy? ==>
              && |out| + ReadMatch(s, p).len <= |Decode(s0).out|
              && s[ReadMatch(s, p).next - 2] == s0[ReadMatch(s, p).next - 2]
  {
    hide Decode, Run, CopyMatch, StableAt, StableMatched, ReadMatch;
    var i := ReadMatch(s, p);
    if i.Copy? {
      UntouchedAt(s0, s, p, i.next - 2);
      RunExtends(s0, i.next, Matched, CopyMatch(out, i.len, i.dist));
    }
  }

  lemma MatchAtLeast(s0: seq<byte>, s: seq<byte>, p: nat, out: seq<byte>)
    requires MatchOk(s0, s, p, out)
    ensures s[p] >= 16
  {
  }

  /** The first instruction of the block, for every block that starts like this one. */
  lemma StartStable(s: seq<byte>)
    requires Decode(s).Complete?
    ensures s != []
    ensures s[0] <= 17 ==> TopOk(s, s, 0, [])
    ensures s[0] > 17 ==>
              var n := s[0] - 17;
              1 + n <= |s| && BothAt(s, s, 1 + n, if n < 4 then AfterShort else AfterLong, s[1..1 + n])
  {
    hide Run;
    if s[0] > 17 {
      var n := s[0] - 17;
      forall x: seq<byte> | |x| == |s| && x[..1 + n] == s[..1 + n]
        ensures Decode(x) == Run(x, 1 + n, if n < 4 then AfterShort else AfterLong, s[1..1 + n])
      {
        assert x[0] == x[..1 + n][0] && s[0] == s[..1 + n][0];
        PrefixBytes(x, s, 1 + n, 1, 1 + n);
      }
    }
  }

  /** Without literals behind it, a match is followed by another instruction. */
  lemma TopBehind(s0: seq<byte>, s: seq<byte>, q: nat, out: seq<byte>)
    requires BothMatched(s0, s, q, out) && s[q - 2] == s0[q - 2] && s[q - 2] % 4 == 0 && Decode(s0).Complete?
    ensures q < |s| && OriginAt(s0, s, q, out)
  {
    hide Decode, Run, StableMatched;
    NoLiterals(s0, q, out);
    NothingLeft(s0, q, out);
  }

  /** A match without literals behind it is followed by an instruction like any other. */
  lemma NoLiterals(s: seq<byte>, q: nat, out: seq<byte>)
    requires 2 <= q <= |s|
    ensures s[q - 2] % 4 == 0 ==> Run(s, q, Matched, out) == Run(s, q, Top, out)
  {
  }

  lemma NothingLeft(s: seq<byte>, q: nat, out: seq<byte>)
    ensures q >= |s| ==> Run(s, q, Top, out).Malformed?
  {
  }

  lemma LongPlaced(h: nat, b: seq<byte>, s: seq<byte>, litp: int, lit: nat, p: nat, out: seq<byte>)
    requires Placed(Long(h, b), s, litp, lit, p, out)
    ensures h < p <= |s| && litp == h && (lit < 16 ==> p == h + 1 + lit)
  {
  }

  lemma ShortPlaced(q: nat, b: seq<byte>, s: seq<byte>, litp: int, lit: nat, p: nat, out: seq<byte>)
    requires Placed(Short(q, b), s, litp, lit, p, out)
    ensures 2 <= q <= p <= |s| && litp == q - 2 && p == q + lit
  {
  }

  /** A run of up to three literals is a short one. */
  lemma ShortBefore(info: Literals, s: seq<byte>, litp: int, lit: nat, p: nat, out: seq<byte>)
    requires Placed(info, s, litp, lit, p, out) && litp >= 0
    ensures lit <= 3 ==> info.Short?
    ensures lit > 3 ==> info.Long?
  {
  }

  /** What has been decoded fits the output. */
  lemma RunFits(s0: seq<byte>, s: seq<byte>, p: nat, mode: Mode, out: seq<byte>)
    requires BothAt(s0, s, p, mode, out) && Decode(s0).Complete?
    ensures |out| <= |Decode(s0).out|
  {
    hide Decode, Run;
    RunExtends(s0, p, mode, out);
  }

  /** The literals of a run that has just been found. */
  lemma RunPlaced(s: seq<byte>, h: nat, b: seq<byte>, c: Count)
    requires h < |s| && s[h] < 16 && StableAt(s, h, Top, b)
    requires c == if s[h] != 0 then Counted(s[h], h + 1) else LongCount(s, h + 1, 15)
    requires c.Counted? && c.next + c.n + 3 <= |s|
    ensures Placed(Long(h, b), s, h, c.n + 3, c.next + c.n + 3, b + s[c.next..c.next + c.n + 3])
  {
    hide StableAt;
  }

  lemma CountAbove(s: seq<byte>, p: nat, base: nat)
    ensures LongCount(s, p, base).Counted? ==> LongCount(s, p, base).n > base
  {
  }

  lemma NothingToCopy(out: seq<byte>, dist: nat)
    requires 1 <= dist <= |out|
    ensures CopyMatch(out, 0, dist) == out
  {
  }
}
