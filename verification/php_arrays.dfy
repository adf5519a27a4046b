/** PHP arrays as ordered sequences of key/value entries.

    An array keeps its insertion order; `unset` removes an entry and keeps
    the order of the others.  Keys are unique (`UniqueKeys`). */
module PhpArrays {
  import opened Php
  import opened PhpStrings

  type PhpArray<V> = seq<(Key, V)>

  /** The offsets each `ArrayAccess` object holds, `None` for an object
      that does not implement `ArrayAccess`. */
  type Access = Object -> Option<PhpArray<Value>>

  function KeysOf<V>(a: PhpArray<V>): (ks: seq<Key>)
    ensures |ks| == |a|
    ensures forall i :: 0 <= i < |a| ==> ks[i] == a[i].0
  {
    if a == [] then [] else [a[0].0] + KeysOf(a[1..])
  }

  /** A key as `%s` prints it. */
  function KeyText(k: Key): (s: string)
    ensures k.StrKey? ==> s == k.s
    ensures k.IntKey? && k.i >= 0 ==> s == NatToString(k.i)
  {
    match k
    case IntKey(i) => IntToString(i)
    case StrKey(s) => s
  }

  /** PHP's `(string) $v`: an array reads "Array" (with a notice), an object
      without `__toString` cannot be converted. */
  function StringCast(v: Value): (r: Result<string>)
    ensures r.Throws? <==> v.Obj? && v.obj.text.None?
    ensures IsStringLike(v) ==> r == Ok(AsString(v))
    ensures v.Int? ==> r == Ok(IntToString(v.i))
    ensures v.Null? || v == Bool(false) ==> r == Ok("")
  {
    match v
    case Null => Ok("")
    case Bool(b) => Ok(if b then "1" else "")
    case Int(i) => Ok(IntToString(i))
    case Str(s) => Ok(s)
    case Arr(_) => Ok("Array")
    case Obj(o) =>
      if o.text.Some? then Ok(o.text.value)
      else Throws(Error("Object of class " + o.className + " could not be converted to string"))
  }

  /** A decimal integer in PHP's canonical form: no sign, no leading zero. */
  predicate IsCanonicalNat(s: string)
  {
    s != [] && (forall i :: 0 <= i < |s| ==> IsDigit(s[i])) && (s == "0" || s[0] != '0')
  }

  /** The key PHP stores `$a[$s]` under: a string holding a canonical
      decimal integer becomes an integer key, any other string stays. */
  function ArrayKey(s: string): (k: Key)
    ensures k.StrKey? ==> k.s == s
  {
    if IsCanonicalNat(s) then IntKey(ParseNat(s))
    else if |s| >= 2 && s[0] == '-' && IsCanonicalNat(s[1..]) && s[1..] != "0" then IntKey(-(ParseNat(s[1..]) as int))
    else StrKey(s)
  }

  /** `%d` of a non-negative integer is canonical and reads back. */
  lemma CanonicalNatToString(n: nat)
    ensures IsCanonicalNat(NatToString(n)) && ParseNat(NatToString(n)) == n
    ensures NatToString(n) == "0" <==> n == 0
  {
    ParseNatOfNatToString(n);
    NatToStringInjective(n, 0);
    assert NatToString(0) == "0";
    if n > 0 {
      NatToStringNoLeadingZero(n);
    }
  }

  /** An integer written out reads back as the same integer key. */
  lemma ArrayKeyOfIntToString(i: int)
    ensures ArrayKey(IntToString(i)) == IntKey(i)
  {
    var s := IntToString(i);
    if i < 0 {
      var d := NatToString(-i);
      CanonicalNatToString(-i);
      assert s == "-" + d;
      assert s[1..] == d;
      assert !IsDigit(s[0]);
      assert !IsCanonicalNat(s);
    } else {
      CanonicalNatToString(i);
    }
  }

  predicate UniqueKeys<V>(a: PhpArray<V>)
  {
    forall i, j :: 0 <= i < j < |a| ==> a[i].0 != a[j].0
  }

  /** `array_key_exists($k, $a)`. */
  predicate HasKey<V>(a: PhpArray<V>, k: Key)
  {
    a != [] && (a[0].0 == k || HasKey(a[1..], k))
  }

  /** `$a[$k]` for a key that is present: the value of its first entry. */
  function Get<V>(a: PhpArray<V>, k: Key): (v: V)
    requires HasKey(a, k)
  {
    if a[0].0 == k then a[0].1 else Get(a[1..], k)
  }

  /** A key is present iff it is one of the keys, and then `Get` reads
      the value of an entry with that key. */
  lemma {:induction false} HasKeySpec<V>(a: PhpArray<V>, k: Key)
    ensures HasKey(a, k) <==> k in KeysOf(a)
    ensures HasKey(a, k) ==> exists i :: 0 <= i < |a| && a[i] == (k, Get(a, k))
  {
    if a != [] {
      HasKeySpec(a[1..], k);
      assert KeysOf(a) == [a[0].0] + KeysOf(a[1..]);
      if a[0].0 != k && HasKey(a, k) {
        var i :| 0 <= i < |a[1..]| && a[1..][i] == (k, Get(a[1..], k));
        assert a[i + 1] == (k, Get(a, k));
      }
    }
  }

  /** `$a[$k] ?? $default`. */
  function GetOr<V>(a: PhpArray<V>, k: Key, default: V): V
  {
    if HasKey(a, k) then Get(a, k) else default
  }

  /** `unset($a[$k])`. */
  function Unset<V>(a: PhpArray<V>, k: Key): (r: PhpArray<V>)
    ensures |r| <= |a|
  {
    if a == [] then []
    else if a[0].0 == k then Unset(a[1..], k)
    else [a[0]] + Unset(a[1..], k)
  }

  /** `unset` removes exactly the pairs with key `k` and keeps the others. */
  lemma {:induction false} UnsetSpec<V>(a: PhpArray<V>, k: Key)
    ensures var r := Unset(a, k);
      && (forall i :: 0 <= i < |r| ==> r[i] in a && r[i].0 != k)
      && (forall i :: 0 <= i < |a| && a[i].0 != k ==> a[i] in r)
      && !HasKey(r, k)
  {
    if a != [] {
      var r, r1 := Unset(a, k), Unset(a[1..], k);
      UnsetSpec(a[1..], k);
      if a[0].0 == k {
        assert r == r1;
        forall i | 0 <= i < |a| && a[i].0 != k
          ensures a[i] in r
        {
          assert a[i] == a[1..][i - 1];
        }
      } else {
        assert r == [a[0]] + r1;
                assert r[1..] == r1;
        forall i | 0 <= i < |r|
          ensures r[i] in a && r[i].0 != k
        {
          if i > 0 {
            assert r[i] == r1[i - 1];
            assert r1[i - 1] in a[1..];
          }
        }
        forall i | 0 <= i < |a| && a[i].0 != k
          ensures a[i] in r
        {
          if i > 0 {
            assert a[i] == a[1..][i - 1];
          }
        }
      }
    }
  }

  /** `unset` of a key that is not there changes nothing. */
  lemma UnsetAbsent<V>(a: PhpArray<V>, k: Key)
    requires !HasKey(a, k)
    ensures Unset(a, k) == a
  {
    if a != [] {
      UnsetAbsent(a[1..], k);
    }
  }

  /** The entries of `a` whose keys are not in `ks`, in order. */
  function Without<V>(a: PhpArray<V>, ks: seq<Key>): (r: PhpArray<V>)
    ensures forall i :: 0 <= i < |r| ==> r[i] in a && r[i].0 !in ks
    ensures forall i :: 0 <= i < |a| && a[i].0 !in ks ==> a[i] in r
  {
    if a == [] then []
    else if a[0].0 in ks then Without(a[1..], ks)
    else [a[0]] + Without(a[1..], ks)
  }

  lemma HasKeyIff<V>(a: PhpArray<V>, k: Key)
    ensures HasKey(a, k) <==> exists i :: 0 <= i < |a| && a[i].0 == k
  {
    HasKeySpec(a, k);
    if HasKey(a, k) {
      var i :| 0 <= i < |a| && KeysOf(a)[i] == k;
    }
  }

  lemma GetAtIndex<V>(a: PhpArray<V>, i: nat)
    requires UniqueKeys(a) && i < |a|
    ensures HasKey(a, a[i].0) && Get(a, a[i].0) == a[i].1
  {
    HasKeyIff(a, a[i].0);
    HasKeySpec(a, a[i].0);
    var k := a[i].0;
    var j :| 0 <= j < |a| && a[j] == (k, Get(a, k));
  }

  /** Removing no key keeps the array. */
  lemma WithoutNothing<V>(a: PhpArray<V>)
    ensures Without(a, []) == a
  {
    if a != [] {
      WithoutNothing(a[1..]);
    }
  }


  /** Removing the keys `ks` does not disturb a key outside `ks`. */
  lemma {:induction false} WithoutKeepsOthers<V>(a: PhpArray<V>, ks: seq<Key>, k: Key)
    requires k !in ks
    ensures HasKey(Without(a, ks), k) == HasKey(a, k)
    ensures HasKey(a, k) ==> Get(Without(a, ks), k) == Get(a, k)
  {
    if a != [] {
      var w, w1 := Without(a, ks), Without(a[1..], ks);
      WithoutKeepsOthers(a[1..], ks, k);
      if a[0].0 in ks {
        assert w == w1;
      } else {
        assert w == [a[0]] + w1;
        assert w[1..] == w1;
      }
    }
  }

  /** Removing one more key is an `unset` of the remaining array. */
  lemma {:induction false} WithoutSnoc<V>(a: PhpArray<V>, ks: seq<Key>, k: Key)
    ensures Without(a, ks + [k]) == Unset(Without(a, ks), k)
  {
    if a != [] {
      WithoutSnoc(a[1..], ks, k);
      if a[0].0 !in ks {
        assert Without(a, ks) == [a[0]] + Without(a[1..], ks);
      }
    }
  }

  /** What `ArrayHasKey` and `$other[$key]` read from a value: an array's
      own pairs; for an object, what `access` gives (the offsets an
      `ArrayAccess` object answers through `offsetExists` and `offsetGet`,
      none for any other object); none for any other value. */
  function Offsets(other: Value, access: Access): Option<PhpArray<Value>>
  {
    match other
    case Arr(a) => Some(a)
    case Obj(o) => access(o)
    case _ => None
  }

  /** `array_is_list($a)`: the keys are 0, 1, …, in order. */
  predicate IsList<V>(a: PhpArray<V>)
  {
    forall i :: 0 <= i < |a| ==> a[i].0 == IntKey(i)
  }

  /** The array PHP builds from a plain list of values. */
  function FromList<V>(xs: seq<V>): (a: PhpArray<V>)
    ensures |a| == |xs| && IsList(a) && UniqueKeys(a)
    ensures forall i :: 0 <= i < |xs| ==> a[i] == (IntKey(i), xs[i])
  {
    seq(|xs|, i requires 0 <= i < |xs| => (IntKey(i), xs[i]))
  }

  lemma ListHasKey<V>(a: PhpArray<V>, i: int)
    requires IsList(a)
    ensures HasKey(a, IntKey(i)) <==> 0 <= i < |a|
    ensures 0 <= i < |a| ==> Get(a, IntKey(i)) == a[i].1
  {
    HasKeyIff(a, IntKey(i));
    HasKeySpec(a, IntKey(i));
    if 0 <= i < |a| {
      var j :| 0 <= j < |a| && a[j] == (IntKey(i), Get(a, IntKey(i)));
    }
  }
}
