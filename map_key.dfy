/** The ordering of `_key` values used as `std::map` keys (struct_as_map_key.cpp).
    A key is an `int` and a `std::string`. `std::map` needs its comparator to be
    a strict weak ordering; the comparator in the source is not one. */
module MapKeys {

  datatype Key = Key(first: int, second: string)

  /** `std::string`'s `<`: lexicographic order on characters, where a proper
      prefix comes before every extension of it. */
  predicate StringLess(a: string, b: string)
  {
    if |a| == 0 then |b| > 0
    else if |b| == 0 then false
    else if a[0] != b[0] then a[0] < b[0]
    else StringLess(a[1..], b[1..])
  }

  /** `cmp::operator()`, the comparator the map is built with. */
  predicate Cmp(left: Key, right: Key)
  {
    if left.first < right.first then true
    else if StringLess(left.second, right.second) then true
    else false
  }

  /** `_key::operator<`, the member comparison used when METHOD_FUNCTION_OBJECT is not defined. */
  predicate KeyLess(self: Key, right: Key)
  {
    if self.first < right.first then true
    else if StringLess(self.second, right.second) then true
    else false
  }

  /** The order the comment above `_key::operator<` describes: first fields, then second. */
  predicate LexLess(left: Key, right: Key)
  {
    left.first < right.first || (left.first == right.first && StringLess(left.second, right.second))
  }

  // The requirements `std::map` places on its comparator.

  ghost predicate Irreflexive(less: (Key, Key) -> bool)
  {
    forall k :: !less(k, k)
  }

  ghost predicate Asymmetric(less: (Key, Key) -> bool)
  {
    forall a, b :: less(a, b) ==> !less(b, a)
  }

  ghost predicate Transitive(less: (Key, Key) -> bool)
  {
    forall a, b, c :: less(a, b) && less(b, c) ==> less(a, c)
  }

  /** Keys that neither precedes form equivalence classes. */
  ghost predicate IncomparableTransitive(less: (Key, Key) -> bool)
  {
    forall a, b, c ::
      !less(a, b) && !less(b, a) && !less(b, c) && !less(c, b) ==> !less(a, c) && !less(c, a)
  }

  ghost predicate StrictWeakOrder(less: (Key, Key) -> bool)
  {
    Irreflexive(less) && Asymmetric(less) && Transitive(less) && IncomparableTransitive(less)
  }

  // std::string's order is a strict total order.

  lemma {:induction false} StringLessIrreflexive(a: string)
    ensures !StringLess(a, a)
  {
    if |a| > 0 {
      StringLessIrreflexive(a[1..]);
    }
  }

  lemma {:induction false} StringLessAsymmetric(a: string, b: string)
    requires StringLess(a, b)
    ensures !StringLess(b, a)
  {
    if |a| > 0 && |b| > 0 && a[0] == b[0] {
      StringLessAsymmetric(a[1..], b[1..]);
    }
  }

  lemma {:induction false} StringLessTransitive(a: string, b: string, c: string)
    requires StringLess(a, b) && StringLess(b, c)
    ensures StringLess(a, c)
  {
    if |a| > 0 && |b| > 0 && |c| > 0 && a[0] == b[0] && b[0] == c[0] {
      StringLessTransitive(a[1..], b[1..], c[1..]);
    }
  }

  lemma {:induction false} StringLessTrichotomous(a: string, b: string)
    ensures a == b || StringLess(a, b) || StringLess(b, a)
  {
    if |a| > 0 && |b| > 0 && a[0] == b[0] {
      StringLessTrichotomous(a[1..], b[1..]);
      if a[1..] == b[1..] {
        assert a == [a[0]] + a[1..] && b == [b[0]] + b[1..];
      }
    }
  }

  // What the comparator in the source does.

  /** No key precedes itself. */
  lemma CmpIrreflexive(k: Key)
    ensures !Cmp(k, k)
  {
    StringLessIrreflexive(k.second);
  }

  /** A smaller first field decides, whatever the second fields are. */
  lemma CmpFirstDecides(left: Key, right: Key)
    requires left.first < right.first
    ensures Cmp(left, right)
  {
  }

  /** A smaller second field also decides, even against a larger first field. */
  lemma CmpSecondOverrides(left: Key, right: Key)
    requires StringLess(left.second, right.second)
    ensures Cmp(left, right)
  {
  }

  /** With equal first fields the comparator is the string order on the second fields. */
  lemma CmpEqualFirst(left: Key, right: Key)
    requires left.first == right.first
    ensures Cmp(left, right) <==> StringLess(left.second, right.second)
  {
  }

  /** The comparator is not the first-then-second order of the comment. */
  lemma CmpIsNotLexicographic()
    ensures Cmp(Key(2, "a"), Key(1, "b")) && !LexLess(Key(2, "a"), Key(1, "b"))
  {
    assert StringLess("a", "b");
  }

  /** Each of two keys precedes the other. */
  lemma CmpNotAsymmetric()
    ensures Cmp(Key(2, "a"), Key(1, "b")) && Cmp(Key(1, "b"), Key(2, "a"))
  {
    assert StringLess("a", "b");
  }

  /** So the comparator breaks the requirement `std::map` places on it. */
  lemma CmpIsNotStrictWeakOrder()
    ensures !StrictWeakOrder(Cmp)
  {
    CmpNotAsymmetric();
  }

  /** The inactive member operator and the active comparator agree on every pair. */
  lemma KeyLessIsCmp(left: Key, right: Key)
    ensures KeyLess(left, right) == Cmp(left, right)
  {
  }

  // The intended order.

  /** LexLess meets the requirement and, beyond it, keeps distinct keys apart. */
  lemma LexLessIsStrictWeakOrder()
    ensures StrictWeakOrder(LexLess)
    ensures forall a, b :: a != b ==> LexLess(a, b) || LexLess(b, a)
  {
    forall k: Key
      ensures !LexLess(k, k)
    {
      StringLessIrreflexive(k.second);
    }
    forall a: Key, b: Key | LexLess(a, b)
      ensures !LexLess(b, a)
    {
      if a.first == b.first {
        StringLessAsymmetric(a.second, b.second);
      }
    }
    forall a: Key, b: Key, c: Key | LexLess(a, b) && LexLess(b, c)
      ensures LexLess(a, c)
    {
      if a.first == b.first == c.first {
        StringLessTransitive(a.second, b.second, c.second);
      }
    }
    forall a: Key, b: Key | a != b
      ensures LexLess(a, b) || LexLess(b, a)
    {
      StringLessTrichotomous(a.second, b.second);
    }
    assert Transitive(LexLess);
    assert IncomparableTransitive(LexLess);
  }
}
