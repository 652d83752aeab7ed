/**
 * The SIMD dot product, src/apps/sem10/process.S:8-66: a loop over four elements at a time and
 * one over the rest.  Nothing is assumed about the arithmetic, so the order of all additions and
 * the operand order of every operation matter, as they do for floating point.
 */
module DotProduct {

  /** `mul(x, y)` and `add(x, y)` have the destination register as their first operand. */
  datatype Arithmetic<!F> = Arithmetic(zero: F, add: (F, F) -> F, mul: (F, F) -> F)

  /** 0 + b[0]*a[0] + b[1]*a[1] + ..., added from left to right. */
  function Dot<F>(ar: Arithmetic<F>, a: seq<F>, b: seq<F>): F
    requires |a| == |b|
  {
    if a == [] then ar.zero
    else
      var n := |a| - 1;
      ar.add(Dot(ar, a[..n], b[..n]), ar.mul(b[n], a[n]))
  }

  /** The empty sum is zero; one product is added to zero. */
  lemma DotStart<F>(ar: Arithmetic<F>, x: F, y: F)
    ensures Dot(ar, [], []) == ar.zero
    ensures Dot(ar, [x], [y]) == ar.add(ar.zero, ar.mul(y, x))
  {
    assert [x][..0] == [] && [y][..0] == [];
  }

  /** Every further product is added on the right. */
  lemma DotSnoc<F>(ar: Arithmetic<F>, a: seq<F>, b: seq<F>, n: nat)
    requires n < |a| && n < |b|
    ensures Dot(ar, a[..n + 1], b[..n + 1]) == ar.add(Dot(ar, a[..n], b[..n]), ar.mul(b[n], a[n]))
  {
    assert a[..n + 1][..n] == a[..n] && b[..n + 1][..n] == b[..n];
  }

  /** Only the first n elements are used; for n <= 0 the result is zero. */
  method DotProduct<F>(ar: Arithmetic<F>, n: int, a: array<F>, b: array<F>) returns (xmm2: F)
    requires n <= a.Length && n <= b.Length
    ensures xmm2 == if n <= 0 then ar.zero else Dot(ar, a[..n], b[..n])
  {
    var ecx, eax, ebx := n, 0, 0;
    xmm2 := ar.zero;
    while ecx >= 4
      invariant eax == ebx && (n <= 0 ==> eax == 0) && ecx + eax == n && 0 <= eax
      invariant 0 <= ecx || n < 0
      invariant n > 0 ==> xmm2 == Dot(ar, a[..eax], b[..eax])
      invariant n <= 0 ==> xmm2 == ar.zero
      decreases ecx
    {
      var xmm0, xmm1 := a[eax..eax + 4], b[ebx..ebx + 4];
      var stack := [ar.mul(xmm1[0], xmm0[0]), ar.mul(xmm1[1], xmm0[1]),
                    ar.mul(xmm1[2], xmm0[2]), ar.mul(xmm1[3], xmm0[3])];
      xmm2 := ar.add(xmm2, stack[0]);
      xmm2 := ar.add(xmm2, stack[1]);
      xmm2 := ar.add(xmm2, stack[2]);
      xmm2 := ar.add(xmm2, stack[3]);
      DotSnoc(ar, a[..], b[..], eax);
      DotSnoc(ar, a[..], b[..], eax + 1);
      DotSnoc(ar, a[..], b[..], eax + 2);
      DotSnoc(ar, a[..], b[..], eax + 3);
      assert forall k :: 0 <= k <= n ==> a[..][..k] == a[..k] && b[..][..k] == b[..k];
      ecx := ecx - 4;
      eax := eax + 4;
      ebx := ebx + 4;
    }
    while ecx >= 1
      invariant eax == ebx && (n <= 0 ==> eax == 0) && ecx + eax == n && 0 <= eax
      invariant 0 <= ecx || n < 0
      invariant n > 0 ==> xmm2 == Dot(ar, a[..eax], b[..eax])
      invariant n <= 0 ==> xmm2 == ar.zero
      decreases ecx
    {
      DotSnoc(ar, a[..], b[..], eax);
      assert forall k :: 0 <= k <= n ==> a[..][..k] == a[..k] && b[..][..k] == b[..k];
      xmm2 := ar.add(xmm2, ar.mul(b[ebx], a[eax]));
      ecx := ecx - 1;
      eax := eax + 1;
      ebx := ebx + 1;
    }
  }
}
