/**
 Ordered keys: the lexicographic orders of strings and paths, and the sorted listing of a finite
 set that iterating a BTreeMap or BTreeSet, or sorting a vector without duplicates, produces.
 */
module Order {

  ghost predicate StrictTotal<T(!new)>(lt: (T, T) -> bool) {
    && (forall a :: !lt(a, a))
    && (forall a, b, c :: lt(a, b) && lt(b, c) ==> lt(a, c))
    && (forall a, b :: lt(a, b) || a == b || lt(b, a))
  }

  /** Lexicographic comparison of two sequences. */
  predicate Lex<T(==)>(lt: (T, T) -> bool, a: seq<T>, b: seq<T>) {
    if b == [] then false
    else if a == [] then true
    else lt(a[0], b[0]) || (a[0] == b[0] && Lex(lt, a[1..], b[1..]))
  }

  function LexOrder<T(==)>(lt: (T, T) -> bool): (seq<T>, seq<T>) -> bool {
    (a: seq<T>, b: seq<T>) => Lex(lt, a, b)
  }

  lemma {:induction false} LexIrreflexive<T(!new)>(lt: (T, T) -> bool, a: seq<T>)
    requires StrictTotal(lt)
    ensures !Lex(lt, a, a)
  {
    if a != [] {
      LexIrreflexive(lt, a[1..]);
    }
  }

  lemma {:induction false} LexTransitive<T(!new)>(lt: (T, T) -> bool, a: seq<T>, b: seq<T>, c: seq<T>)
    requires StrictTotal(lt) && Lex(lt, a, b) && Lex(lt, b, c)
    ensures Lex(lt, a, c)
  {
    if a != [] && a[0] == b[0] && b[0] == c[0] {
      LexTransitive(lt, a[1..], b[1..], c[1..]);
    }
  }

  lemma {:induction false} LexTotal<T(!new)>(lt: (T, T) -> bool, a: seq<T>, b: seq<T>)
    requires StrictTotal(lt)
    ensures Lex(lt, a, b) || a == b || Lex(lt, b, a)
  {
    if a != [] && b != [] && a[0] == b[0] {
      LexTotal(lt, a[1..], b[1..]);
      assert a == [a[0]] + a[1..] && b == [b[0]] + b[1..];
    }
  }

  /** The lexicographic order of a strict total order is one. */
  lemma LexStrictTotal<T(!new)>(lt: (T, T) -> bool)
    requires StrictTotal(lt)
    ensures StrictTotal(LexOrder(lt))
  {
    var lex := LexOrder(lt);
    forall a: seq<T> ensures !lex(a, a) {
      LexIrreflexive(lt, a);
    }
    forall a: seq<T>, b: seq<T>, c: seq<T> | lex(a, b) && lex(b, c) ensures lex(a, c) {
      LexTransitive(lt, a, b, c);
    }
    forall a: seq<T>, b: seq<T> ensures lex(a, b) || a == b || lex(b, a) {
      LexTotal(lt, a, b);
    }
  }

  /** A path is the sequence of its components; paths compare component by component. */
  type Path = seq<string>

  const CHAR_LESS: (char, char) -> bool := (a: char, b: char) => a < b
  const STRING_LESS: (string, string) -> bool := LexOrder(CHAR_LESS)
  const PATH_LESS: (Path, Path) -> bool := LexOrder(STRING_LESS)

  lemma StringOrder()
    ensures StrictTotal(STRING_LESS)
  {
    LexStrictTotal(CHAR_LESS);
  }

  lemma PathOrder()
    ensures StrictTotal(PATH_LESS)
  {
    StringOrder();
    LexStrictTotal(STRING_LESS);
  }

  // ---------------------------------------------------------------- sorted listings

  ghost predicate Sorted<T>(lt: (T, T) -> bool, s: seq<T>) {
    forall i, j :: 0 <= i < j < |s| ==> lt(s[i], s[j])
  }

  predicate IsLeast<T(==)>(lt: (T, T) -> bool, S: set<T>, x: T) {
    x in S && forall y :: y in S && y != x ==> lt(x, y)
  }

  lemma {:induction false} LeastExists<T(!new)>(lt: (T, T) -> bool, S: set<T>)
    requires StrictTotal(lt) && S != {}
    ensures exists x :: IsLeast(lt, S, x)
  {
    var x :| x in S;
    if S == {x} {
      assert IsLeast(lt, S, x);
    } else {
      var rest := S - {x};
      assert S == rest + {x};
      LeastExists(lt, rest);
      var y :| IsLeast(lt, rest, y);
      if lt(x, y) {
        forall z | z in S && z != x ensures lt(x, z) {
          assert z in rest;
        }
        assert IsLeast(lt, S, x);
      } else {
        assert IsLeast(lt, S, y);
      }
    }
  }

  function Least<T(==, !new)>(lt: (T, T) -> bool, S: set<T>): (x: T)
    requires StrictTotal(lt) && S != {}
    ensures x in S
  {
    LeastExists(lt, S);
    var x :| IsLeast(lt, S, x) && x in S;
    x
  }

  /** The elements of a finite set in ascending order; `ListingSorted` states the order. */
  function Listing<T(==, !new)>(lt: (T, T) -> bool, S: set<T>): (s: seq<T>)
    requires StrictTotal(lt)
    ensures |s| == |S|
    ensures forall x :: x in s <==> x in S
  {
    if S == {} then []
    else
      var x := Least(lt, S);
      [x] + Listing(lt, S - {x})
  }

  lemma {:induction false} ListingSorted<T(!new)>(lt: (T, T) -> bool, S: set<T>)
    requires StrictTotal(lt)
    ensures Sorted(lt, Listing(lt, S))
  {
    if S != {} {
      var x := Least(lt, S);
      LeastIsLeast(lt, S);
      ListingSorted(lt, S - {x});
      var rest := Listing(lt, S - {x});
      forall j | 0 <= j < |rest| ensures lt(x, rest[j]) {
        assert rest[j] in rest;
      }
    }
  }

  lemma LeastIsLeast<T(!new)>(lt: (T, T) -> bool, S: set<T>)
    requires StrictTotal(lt) && S != {}
    ensures IsLeast(lt, S, Least(lt, S))
  {
    LeastExists(lt, S);
  }

  predicate Distinct<T(==)>(s: seq<T>) {
    forall i, j :: 0 <= i < j < |s| ==> s[i] != s[j]
  }

  lemma SortedDistinct<T(!new)>(lt: (T, T) -> bool, s: seq<T>)
    requires StrictTotal(lt) && Sorted(lt, s)
    ensures Distinct(s)
  {
  }

  /** The keys of a map in the order a BTreeMap iterates. */
  function SortedKeys(S: set<string>): (keys: seq<string>)
    ensures |keys| == |S| && forall k :: k in keys <==> k in S
  {
    StringOrder();
    Listing(STRING_LESS, S)
  }

  lemma SortedKeysDistinct(S: set<string>)
    ensures Distinct(SortedKeys(S))
  {
    StringOrder();
    ListingSorted(STRING_LESS, S);
    SortedDistinct(STRING_LESS, SortedKeys(S));
  }

  lemma HasMember<T>(s: seq<T>)
    requires s != []
    ensures exists x :: x in s
  {
    assert s[0] in s;
  }

  /** A sorted sequence is determined by its elements. */
  lemma {:induction false} SortedUnique<T(!new)>(lt: (T, T) -> bool, a: seq<T>, b: seq<T>)
    requires StrictTotal(lt) && Sorted(lt, a) && Sorted(lt, b)
    requires forall x :: x in a <==> x in b
    ensures a == b
  {
    if a == [] {
      if b != [] {
        HasMember(b);
      }
    } else {
      assert a[0] in b;
      assert b[0] in a;
      assert a[0] == b[0];
      var a', b' := a[1..], b[1..];
      forall x ensures x in a' <==> x in b' {
        if x in a' {
          var i :| 0 < i < |a| && a[i] == x;
          assert lt(a[0], x) && x in a;
          assert x in b && x != b[0];
        }
        if x in b' {
          var i :| 0 < i < |b| && b[i] == x;
          assert lt(b[0], x) && x in b;
          assert x in a && x != a[0];
        }
      }
      SortedUnique(lt, a', b');
      assert a == [a[0]] + a' && b == [b[0]] + b';
    }
  }
}
