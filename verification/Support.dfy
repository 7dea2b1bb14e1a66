/** Small shared vocabulary. */
module Support {
  datatype Option<+T> = None | Some(value: T)

  newtype Byte = x: int | 0 <= x < 256

  type Bytes = seq<Byte>

  function Min(a: real, b: real): real {
    if a <= b then a else b
  }

  function Least(a: nat, b: nat): nat {
    if a <= b then a else b
  }

  ghost predicate PairwiseDistinct<T>(items: seq<T>) {
    forall i, j :: 0 <= i < j < |items| ==> items[i] != items[j]
  }

  /** How many of the first `n` items are chosen. */
  ghost function Rank<T>(items: seq<T>, chosen: T -> bool, n: nat): nat
    requires n <= |items|
  {
    if n == 0 then 0 else Rank(items, chosen, n - 1) + if chosen(items[n - 1]) then 1 else 0
  }

  /** `listed` has one element for each chosen item and nothing else, in their order, each showing its item. */
  ghost predicate ListsExactly<T, U>(items: seq<T>, chosen: T -> bool, listed: seq<U>, shows: (T, U) -> bool) {
    && |listed| == Rank(items, chosen, |items|)
    && forall k :: 0 <= k < |items| && chosen(items[k]) ==>
         Rank(items, chosen, k) < |listed| && shows(items[k], listed[Rank(items, chosen, k)])
  }

  lemma {:induction false} RankOfPrefix<T>(items: seq<T>, last: T, chosen: T -> bool, n: nat)
    requires n <= |items|
    ensures Rank(items + [last], chosen, n) == Rank(items, chosen, n)
  {
    if n > 0 { RankOfPrefix(items, last, chosen, n - 1); }
  }

  lemma {:induction false} RankGrows<T>(items: seq<T>, chosen: T -> bool, k: nat, n: nat)
    requires k < n <= |items| && chosen(items[k])
    ensures Rank(items, chosen, k) < Rank(items, chosen, n)
    decreases n
  {
    if k < n - 1 { RankGrows(items, chosen, k, n - 1); }
  }

  /** One more item, with one more element if it is chosen. */
  lemma ListsOneMore<T, U>(items: seq<T>, chosen: T -> bool, listed: seq<U>, shows: (T, U) -> bool, last: T, more: seq<U>)
    requires ListsExactly(items, chosen, listed, shows)
    requires if chosen(last) then |more| == 1 && shows(last, more[0]) else more == []
    ensures ListsExactly(items + [last], chosen, listed + more, shows)
  {
    var all := items + [last];
    RankOfPrefix(items, last, chosen, |items|);
    forall k | 0 <= k < |all| && chosen(all[k])
      ensures Rank(all, chosen, k) < |listed + more| && shows(all[k], (listed + more)[Rank(all, chosen, k)])
    {
      if k < |items| {
        RankOfPrefix(items, last, chosen, k);
        assert chosen(items[k]);
      }
    }
  }

  lemma {:induction false} ChosenAt<T>(items: seq<T>, chosen: T -> bool, r: nat, n: nat) returns (k: nat)
    requires n <= |items| && r < Rank(items, chosen, n)
    ensures k < n && chosen(items[k]) && Rank(items, chosen, k) == r
  {
    if r < Rank(items, chosen, n - 1) {
      k := ChosenAt(items, chosen, r, n - 1);
    } else {
      k := n - 1;
    }
  }

  /** When an item can be shown in one way only, there is only one such list. */
  lemma ListsAreUnique<T, U>(items: seq<T>, chosen: T -> bool, a: seq<U>, b: seq<U>, shows: (T, U) -> bool)
    requires ListsExactly(items, chosen, a, shows) && ListsExactly(items, chosen, b, shows)
    requires forall t, x, y :: t in items && shows(t, x) && shows(t, y) ==> x == y
    ensures a == b
  {
    forall r | 0 <= r < |a|
      ensures a[r] == b[r]
    {
      var k := ChosenAt(items, chosen, r, |items|);
      assert shows(items[k], a[r]) && shows(items[k], b[r]);
    }
  }

  predicate IsHexDigit(c: char) {
    '0' <= c <= '9' || 'a' <= c <= 'f'
  }

  /** A lower-case hexadecimal string of exactly `length` digits. */
  predicate IsHex(s: string, length: nat) {
    |s| == length && forall i :: 0 <= i < |s| ==> IsHexDigit(s[i])
  }
}

/** JSON-like values as the Python checks see them; a number without a finite value is minus infinity, or above all or none. */
module Values {
  datatype Value =
    | Null
    | Bool(b: bool)
    | Num(r: real)
    | NonFinite(below: bool)
    | Str(s: string)
    | List(items: seq<Value>)
    | Dict(fields: map<string, Value>)
  {
    /** `value.get(name)` on a dictionary: an absent field reads as null. */
    function Get(name: string): Value
      requires Dict?
    {
      if name in fields then fields[name] else Null
    }
  }

  /** A field of a value, null if it has none. */
  function Part(v: Value, name: string): Value {
    if v.Dict? && name in v.fields then v.fields[name] else Null
  }

  predicate IsOneOf(v: Value, names: set<string>) {
    v.Str? && v.s in names
  }

  /** Null, false, zero and whatever is empty are false; everything else is true. */
  lemma TruthyIs(v: Value)
    ensures Truthy(v) <==> v !in {Null, Bool(false), Num(0.0), Str(""), List([]), Dict(map[])}
  {}

  /** The truth value of a JSON-like value. */
  predicate Truthy(v: Value) {
    match v
    case Null => false
    case Bool(b) => b
    case Num(r) => r != 0.0
    case NonFinite(_) => true
    case Str(s) => s != ""
    case List(items) => items != []
    case Dict(fields) => fields.Keys != {}
  }
}
