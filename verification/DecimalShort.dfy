/** do_sub into a buffer with less room than the larger number has integer words: the words that are subtracted then, and when a loop
    leaves the buffer at its front. */
module DecimalShort {
  import opened DecimalWords
  import opened DecimalNumber
  import opened DecimalAdd
  import opened DecimalDiff

  /** n zeros before position q0. Every loop here stops where the next word would be in front of the buffer. */
  method ZeroRun(out: array<int>, q0: nat, n: nat) returns (q: nat, outside: bool)
    requires q0 <= out.Length
    modifies out
    ensures q <= q0 && (outside <==> n > q0) && (!outside ==> q == q0 - n)
  {
    q, outside := q0, false;
    var k := 0;
    while k < n && !outside
      invariant 0 <= k <= n && q == q0 - k && (outside ==> q == 0 && k < n)
      decreases n - k, !outside
    {
      if q == 0 {
        outside := true;
      } else {
        q, k := q - 1, k + 1;
        out[q] := 0;
      }
    }
  }

  /** The words of a from stop to p0, copied. */
  method CopyRun(a: array<int>, p0: int, stop: int, out: array<int>, q0: nat) returns (outside: bool)
    requires out != a && stop <= p0 <= a.Length && q0 <= out.Length && (stop < p0 ==> q0 <= p0)
    modifies out
    ensures outside <==> p0 - stop > q0
  {
    var p, q := p0, q0;
    outside := false;
    while p > stop && !outside
      invariant stop <= p <= p0 && q >= 0 && p0 - p == q0 - q && (outside ==> q == 0 && p > stop)
      decreases p - stop, !outside
    {
      if q == 0 {
        outside := true;
      } else {
        p, q := p - 1, q - 1;
        out[q] := a[p];
      }
    }
  }

  /** The words of b from stop to p0, subtracted from zero. */
  method NegateRun(b: array<int>, p0: int, stop: int, out: array<int>, q0: nat) returns (outside: bool)
    requires out != b && stop <= p0 <= b.Length && q0 <= out.Length && (stop < p0 ==> q0 <= p0)
    requires forall i :: stop <= i < p0 && p0 - q0 <= i ==> 0 <= b[i] < BASE
    modifies out
    ensures outside <==> p0 - stop > q0
  {
    var p, q, carry := p0, q0, 0;
    outside := false;
    while p > stop && !outside
      invariant stop <= p <= p0 && q >= 0 && p0 - p == q0 - q && 0 <= carry <= 1 && (outside ==> q == 0 && p > stop)
      decreases p - stop, !outside
    {
      if q == 0 {
        outside := true;
      } else {
        p, q := p - 1, q - 1;
        var w;
        w, carry := Sub(0, b[p], carry);
        out[q] := w;
      }
    }
  }

  /** Part 1 of the subtraction, after intg1 has been cut to the length of the buffer and frac0 to nothing: f1 and f2 are zero, or less by
      the zero words the comparison has left out at the end of the integers. */
  method FirstPart(a: array<int>, sa: nat, f1: int, b: array<int>, sb: nat, i2: nat, f2: int, out: array<int>) returns (outside: bool)
    requires out != a && out != b && f1 <= 0 && f2 <= 0 && i2 <= out.Length && (f1 != 0 || f2 != 0 ==> i2 == out.Length)
    requires sa + out.Length <= a.Length && sb + i2 <= b.Length && forall i :: sb <= i < sb + i2 ==> 0 <= b[i] < BASE
    modifies out
    ensures outside <==> f1 < -out.Length || f2 < -out.Length
  {
    var L := out.Length;
    var q;
    if f1 > f2 {
      q, outside := ZeroRun(out, L, -f1);
      if !outside { outside := CopyRun(a, sa + L + f1, sa + L + f2, out, q); }
    } else {
      q, outside := ZeroRun(out, L, -f2);
      if !outside { outside := NegateRun(b, sb + i2 + f2, sb + i2 + f1, out, q); }
    }
  }

  /** The whole subtraction there. While part 1 stays in the buffer, all does, and the words are those of the two cut numbers' difference. */
  method SubtractShort(a: array<int>, sa: nat, f1: int, b: array<int>, sb: nat, i2: nat, f2: int, out: array<int>) returns (outside: bool)
    requires out != a && out != b && f1 <= 0 && f2 <= 0 && i2 <= out.Length && (f1 != 0 || f2 != 0 ==> i2 == out.Length)
    requires sa + out.Length <= a.Length && AreWords(a[..sa + out.Length]) && sb + i2 <= b.Length && AreWords(b[..sb + i2])
    modifies out
    ensures outside <==> f1 < -out.Length || f2 < -out.Length
    ensures !outside ==> AreWords(out[..])
    ensures !outside ==>
              var L := out.Length; var x, y := old(a[..][sa..sa + L + f1]), old(b[..][sb..sb + i2 + f2]);
              Num(out[..]) == Wrapped(Shifted(x, -f1) - Shifted(y, -f2), L)
  {
    hide Num, PowB, Shifted, Wrapped;
    ghost var va, vb := a[..], b[..];
    assert forall i :: sb <= i < sb + i2 ==> b[..sb + i2][i] == b[i];
    outside := FirstPart(a, sa, f1, b, sb, i2, f2, out);
    if !outside {
      assert a[..] == va && b[..] == vb;
      CutWordsHere(va, sa, out.Length, f1, vb, sb, i2, f2);
      // Part 1 again, over the same words, and the parts behind it.
      SubtractWords(a, sa, sa + out.Length + f1, -f1, b, sb, sb + i2 + f2, -f2, out, out.Length);
      assert out[..out.Length] == out[..];
    }
  }

  lemma CutWordsHere(a: seq<int>, sa: nat, L: nat, f1: int, b: seq<int>, sb: nat, i2: nat, f2: int)
    requires f1 <= 0 <= L + f1 && f2 <= 0 <= L + f2 && i2 <= L && (f1 != 0 || f2 != 0 ==> i2 == L)
    requires sa + L <= |a| && AreWords(a[..sa + L]) && sb + i2 <= |b| && AreWords(b[..sb + i2])
    ensures Layout(a, sa, sa + L + f1, -f1, b, sb, sb + i2 + f2, -f2, L)
  {
    assert a[..sa + L + f1] == a[..sa + L][..sa + L + f1] && b[..sb + i2 + f2] == b[..sb + i2][..sb + i2 + f2];
  }
}
