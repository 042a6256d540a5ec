/** Abelian groups given by their operations, and scalar multiplication in them. */
module Groups {
  import opened NumberTheory

  datatype Group<!T> = Group(member: T -> bool, add: (T, T) -> T, neg: T -> T, zero: T)

  ghost predicate Closes<T(!new)>(g: Group<T>, a: T, b: T) {
    g.member(a) && g.member(b) ==> g.member(g.add(a, b))
  }

  ghost predicate HasUnit<T(!new)>(g: Group<T>, a: T) {
    g.member(a) ==> g.add(g.zero, a) == a
  }

  ghost predicate Commutes<T(!new)>(g: Group<T>, a: T, b: T) {
    g.member(a) && g.member(b) ==> g.add(a, b) == g.add(b, a)
  }

  ghost predicate Associates<T(!new)>(g: Group<T>, a: T, b: T, d: T) {
    g.member(a) && g.member(b) && g.member(d) ==> g.add(g.add(a, b), d) == g.add(a, g.add(b, d))
  }

  ghost predicate Cancels<T(!new)>(g: Group<T>, a: T) {
    g.member(a) ==> g.member(g.neg(a)) && g.add(g.neg(a), a) == g.zero
  }

  /** The abelian group laws on the members. */
  ghost predicate Laws<T(!new)>(g: Group<T>) {
    && g.member(g.zero)
    && (forall a, b :: Closes(g, a, b))
    && (forall a :: HasUnit(g, a))
    && (forall a :: Cancels(g, a))
    && (forall a, b :: Commutes(g, a, b))
    && (forall a, b, d :: Associates(g, a, b, d))
  }

  /** k times a. */
  function Mul<T>(g: Group<T>, k: nat, a: T): T {
    if k == 0 then g.zero else g.add(a, Mul(g, k - 1, a))
  }

  lemma {:induction false} MulMember<T(!new)>(g: Group<T>, k: nat, a: T)
    requires Laws(g) && g.member(a)
    ensures g.member(Mul(g, k, a))
  {
    if k > 0 {
      MulMember(g, k - 1, a);
      assert Closes(g, a, Mul(g, k - 1, a));
    }
  }

  lemma {:induction false} MulSum<T(!new)>(g: Group<T>, i: nat, j: nat, a: T)
    requires Laws(g) && g.member(a)
    ensures Mul(g, i + j, a) == g.add(Mul(g, i, a), Mul(g, j, a))
  {
    MulMember(g, j, a);
    assert HasUnit(g, Mul(g, j, a));
    if i > 0 {
      MulMember(g, i - 1, a);
      MulSum(g, i - 1, j, a);
      assert Associates(g, a, Mul(g, i - 1, a), Mul(g, j, a));
    }
  }

  lemma {:induction false} MulZero<T(!new)>(g: Group<T>, k: nat)
    requires Laws(g)
    ensures Mul(g, k, g.zero) == g.zero
  {
    if k > 0 {
      assert Mul(g, k, g.zero) == g.add(g.zero, Mul(g, k - 1, g.zero));
      MulZero(g, k - 1);
      assert HasUnit(g, g.zero);
    }
  }

  /** (i * j) a == i (j a) */
  lemma {:induction false} MulMul<T(!new)>(g: Group<T>, i: nat, j: nat, a: T)
    requires Laws(g) && g.member(a)
    ensures Mul(g, i * j, a) == Mul(g, i, Mul(g, j, a))
  {
    if i > 0 {
      MulMul(g, i - 1, j, a);
      assert i * j == j + (i - 1) * j;
      MulSum(g, j, (i - 1) * j, a);
    }
  }

  lemma InverseUnique<T(!new)>(g: Group<T>, a: T, b: T)
    requires Laws(g) && g.member(a) && g.member(b) && g.add(a, b) == g.zero
    ensures a == g.neg(b)
  {
    var n := g.neg(b);
    assert Cancels(g, b);
    assert Commutes(g, n, b) && Commutes(g, a, g.zero);
    assert Associates(g, a, b, n) && HasUnit(g, n) && HasUnit(g, a);
  }

  lemma NegSum<T(!new)>(g: Group<T>, a: T, b: T)
    requires Laws(g) && g.member(a) && g.member(b)
    ensures g.add(g.neg(a), g.neg(b)) == g.neg(g.add(a, b))
  {
    var m, n := g.neg(a), g.neg(b);
    var ab := g.add(a, b);
    assert Cancels(g, a) && Cancels(g, b) && HasUnit(g, b);
    assert Closes(g, a, b) && Closes(g, m, n) && Closes(g, m, ab) && Closes(g, m, a);
    calc {
      g.add(g.add(m, n), ab);
      { assert Commutes(g, m, n); }
      g.add(g.add(n, m), ab);
      { assert Associates(g, n, m, ab); }
      g.add(n, g.add(m, ab));
      { assert Associates(g, m, a, b); }
      g.add(n, g.add(g.zero, b));
      g.zero;
    }
    InverseUnique(g, g.add(m, n), ab);
  }

  /** Scalar multiplication commutes with negation: k (-a) == -(k a). */
  lemma {:induction false} MulNeg<T(!new)>(g: Group<T>, k: nat, a: T)
    requires Laws(g) && g.member(a)
    ensures Mul(g, k, g.neg(a)) == g.neg(Mul(g, k, a))
  {
    if k == 0 {
      assert HasUnit(g, g.zero);
      InverseUnique(g, g.zero, g.zero);
    } else {
      assert Cancels(g, a);
      MulNeg(g, k - 1, a);
      MulMember(g, k - 1, a);
      NegSum(g, a, Mul(g, k - 1, a));
    }
  }

  /** k = q n + r acts on an element of order n like r. */
  lemma MulRemainder<T(!new)>(g: Group<T>, n: nat, q: nat, r: nat, a: T)
    requires Laws(g) && g.member(a) && Mul(g, n, a) == g.zero
    ensures Mul(g, q * n + r, a) == Mul(g, r, a)
  {
    MulSum(g, q * n, r, a);
    MulMul(g, q, n, a);
    MulZero(g, q);
    MulMember(g, r, a);
    assert HasUnit(g, Mul(g, r, a));
  }

  /** No scalar strictly between 0 and a prime n kills a nonzero element killed by n. */
  lemma {:induction false} SmallScalarAlive<T(!new)>(g: Group<T>, n: nat, k: nat, a: T)
    requires Laws(g) && g.member(a) && a != g.zero && Mul(g, n, a) == g.zero
    requires IsPrime(n) && 0 < k < n
    ensures Mul(g, k, a) != g.zero
    decreases k
  {
    if k == 1 {
      assert Commutes(g, a, g.zero) && HasUnit(g, a);
      assert Mul(g, 1, a) == g.add(a, Mul(g, 0, a));
    } else if Mul(g, k, a) == g.zero {
      var q, r := n / k, n % k;
      assert n == q * k + r && 0 < r < k;
      MulRemainder(g, k, q, r, a);
      SmallScalarAlive(g, n, r, a);
      assert false;
    }
  }

  /** The scalars killing a nonzero element of prime order n are the multiples of n. */
  lemma MulKills<T(!new)>(g: Group<T>, n: nat, k: nat, a: T)
    requires Laws(g) && g.member(a) && a != g.zero && Mul(g, n, a) == g.zero && IsPrime(n)
    ensures Mul(g, k, a) == g.zero <==> k % n == 0
  {
    var q, r := k / n, k % n;
    assert k == q * n + r;
    MulRemainder(g, n, q, r, a);
    if r > 0 {
      SmallScalarAlive(g, n, r, a);
    }
  }

  function Wrap(n: nat, i: nat): nat {
    if i >= n then i - n else i
  }

  /** a is the member numbered i by `idx`, which `at` inverts. */
  ghost predicate Numbered<T(!new)>(g: Group<T>, n: nat, idx: T -> nat, at: nat -> T, i: nat) {
    i < n ==> g.member(at(i)) && idx(at(i)) == i && g.neg(at(i)) == at(Wrap(n, n - i))
  }

  /** Members numbered 0..n-1 whose numbers add modulo n form a group. */
  lemma CyclicLaws<T(!new)>(g: Group<T>, n: nat, idx: T -> nat, at: nat -> T)
    requires n > 0 && g.zero == at(0)
    requires forall i: nat :: Numbered(g, n, idx, at, i)
    requires forall a :: g.member(a) ==> idx(a) < n && at(idx(a)) == a
    requires forall a, b :: g.add(a, b) == at(Wrap(n, idx(a) + idx(b)))
    ensures Laws(g)
  {
    forall a, b ensures Commutes(g, a, b) { }
    assert Numbered(g, n, idx, at, 0);
    forall a, b ensures Closes(g, a, b) {
      if g.member(a) && g.member(b) {
        assert Numbered(g, n, idx, at, Wrap(n, idx(a) + idx(b)));
      }
    }
    forall a ensures HasUnit(g, a) { }
    forall a ensures Cancels(g, a) { CyclicCancels(g, n, idx, at, a); }
    forall a, b, d ensures Associates(g, a, b, d) { CyclicAssociates(g, n, idx, at, a, b, d); }
  }

  lemma CyclicCancels<T(!new)>(g: Group<T>, n: nat, idx: T -> nat, at: nat -> T, a: T)
    requires n > 0 && g.zero == at(0)
    requires forall i: nat :: Numbered(g, n, idx, at, i)
    requires g.member(a) ==> idx(a) < n && at(idx(a)) == a
    requires g.add(g.neg(a), a) == at(Wrap(n, idx(g.neg(a)) + idx(a)))
    ensures Cancels(g, a)
  {
    assert Numbered(g, n, idx, at, idx(a));
    if g.member(a) {
      assert Numbered(g, n, idx, at, Wrap(n, n - idx(a)));
    }
  }

  lemma CyclicAssociates<T(!new)>(g: Group<T>, n: nat, idx: T -> nat, at: nat -> T, a: T, b: T, d: T)
    requires n > 0
    requires forall i: nat :: Numbered(g, n, idx, at, i)
    requires forall a :: g.member(a) ==> idx(a) < n
    requires forall a, b :: g.add(a, b) == at(Wrap(n, idx(a) + idx(b)))
    ensures Associates(g, a, b, d)
  {
    if g.member(a) && g.member(b) && g.member(d) {
      assert Numbered(g, n, idx, at, Wrap(n, idx(a) + idx(b)));
      assert Numbered(g, n, idx, at, Wrap(n, idx(b) + idx(d)));
    }
  }
}
