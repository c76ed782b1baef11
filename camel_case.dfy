/**
 * The `toCamelCase` helper that every data-access file carries (an identical
 * copy in each): it renames a row's snake_case column names to camelCase keys.
 */
module CamelCase {
  import opened Wrappers

  predicate IsLower(c: char)
  {
    'a' <= c <= 'z'
  }

  /** `String.prototype.toUpperCase` on a letter a-z. */
  function ToUpper(c: char): (u: char)
    requires IsLower(c)
    ensures 'A' <= u <= 'Z'
  {
    (c as int - 32) as char
  }

  /**
   * `key.replace(/_([a-z])/g, (_, letter) => letter.toUpperCase())`: the scan
   * runs left to right, a match consumes both characters, and a character that
   * starts no match is copied.
   */
  function CamelKey(key: string): (r: string)
    ensures |r| <= |key|
  {
    if |key| < 2 then key
    else if key[0] == '_' && IsLower(key[1]) then [ToUpper(key[1])] + CamelKey(key[2..])
    else [key[0]] + CamelKey(key[1..])
  }

  /** `s` contains an underscore followed by a lower-case letter, so the pattern matches. */
  predicate HasSnakePair(s: string)
  {
    exists i :: 0 <= i < |s| - 1 && s[i] == '_' && IsLower(s[i + 1])
  }

  lemma {:induction false} CamelKeyHead(key: string)
    requires |key| > 0
    ensures |CamelKey(key)| > 0
    ensures !IsLower(key[0]) ==> !IsLower(CamelKey(key)[0])
    ensures key[0] != '_' ==> CamelKey(key)[0] == key[0]
  {
  }

  /** After the rewrite no underscore is followed by a lower-case letter. */
  lemma {:induction false} CamelKeyHasNoSnakePair(key: string)
    ensures !HasSnakePair(CamelKey(key))
  {
    if |key| < 2 {
    } else if key[0] == '_' && IsLower(key[1]) {
      var rest := CamelKey(key[2..]);
      CamelKeyHasNoSnakePair(key[2..]);
      var r := [ToUpper(key[1])] + rest;
      forall i | 0 <= i < |r| - 1 && r[i] == '_' ensures !IsLower(r[i + 1]) {
        assert i > 0;
        assert rest[i - 1] == '_' && rest[i] == r[i + 1];
      }
    } else {
      var rest := CamelKey(key[1..]);
      CamelKeyHasNoSnakePair(key[1..]);
      CamelKeyHead(key[1..]);
      var r := [key[0]] + rest;
      forall i | 0 <= i < |r| - 1 && r[i] == '_' ensures !IsLower(r[i + 1]) {
        if i > 0 {
          assert rest[i - 1] == '_' && rest[i] == r[i + 1];
        }
      }
    }
  }

  /** A key without a match is left as it is. */
  lemma {:induction false} CamelKeyFixesPlainKeys(key: string)
    requires !HasSnakePair(key)
    ensures CamelKey(key) == key
  {
    if |key| >= 2 {
      assert !(key[0] == '_' && IsLower(key[1]));
      assert !HasSnakePair(key[1..]) by {
        forall i | 0 <= i < |key[1..]| - 1 && key[1..][i] == '_' ensures !IsLower(key[1..][i + 1]) {
          assert key[i + 1] == '_';
        }
      }
      CamelKeyFixesPlainKeys(key[1..]);
    }
  }

  /** Renaming a key twice is the same as renaming it once. */
  lemma {:induction false} CamelKeyIdempotent(key: string)
    ensures CamelKey(CamelKey(key)) == CamelKey(key)
  {
    CamelKeyHasNoSnakePair(key);
    CamelKeyFixesPlainKeys(CamelKey(key));
  }

  /** Short keys, renamed: a match consumes its underscore, a lone one stays. */
  lemma CamelKeyExamples()
    ensures CamelKey("a_b") == "aB"
    ensures CamelKey("a__b") == "a_B"
    ensures CamelKey("a_") == "a_"
    ensures CamelKey("_1") == "_1"
  {
    assert CamelKey("_b") == "B";
    assert CamelKey("__b") == "_B";
  }

  /**
   * The object that assigning `obj[keys[i]] = values[i]` for `i` from 0 to
   * `n - 1` builds: every one of those keys, each holding the value of its
   * LAST assignment, and no other key.
   */
  ghost predicate LastWins<V>(keys: seq<string>, values: seq<V>, n: nat, obj: map<string, V>)
    requires n <= |keys| == |values|
  {
    && (forall i :: 0 <= i < n ==> keys[i] in obj)
    && (forall k :: k in obj ==>
          exists i :: 0 <= i < n && keys[i] == k && obj[k] == values[i]
            && forall j :: i < j < n ==> keys[j] != k)
  }

  /** One more assignment: its key now holds its value. */
  lemma LastWinsStep<V>(keys: seq<string>, values: seq<V>, n: nat, obj: map<string, V>)
    requires n < |keys| == |values| && LastWins(keys, values, n, obj)
    ensures LastWins(keys, values, n + 1, obj[keys[n] := values[n]])
  {
    var next := obj[keys[n] := values[n]];
    forall k | k in next
      ensures exists i :: 0 <= i < n + 1 && keys[i] == k && next[k] == values[i]
                && forall j :: i < j < n + 1 ==> keys[j] != k
    {
      if k != keys[n] {
        var i :| 0 <= i < n && keys[i] == k && obj[k] == values[i] && forall j :: i < j < n ==> keys[j] != k;
        assert next[k] == obj[k];
      }
    }
  }

  /** The renamed keys of a row's properties, in enumeration order. */
  function RenamedKeys<V>(entries: seq<(string, V)>): (ks: seq<string>)
    ensures |ks| == |entries| && forall i :: 0 <= i < |entries| ==> ks[i] == CamelKey(entries[i].0)
  {
    seq(|entries|, i requires 0 <= i < |entries| => CamelKey(entries[i].0))
  }

  function Values<V>(entries: seq<(string, V)>): (vs: seq<V>)
    ensures |vs| == |entries| && forall i :: 0 <= i < |entries| ==> vs[i] == entries[i].1
  {
    seq(|entries|, i requires 0 <= i < |entries| => entries[i].1)
  }

  /**
   * `newObj` maps every renamed key to the value of the LAST own property
   * (in `for...in` order) whose key is renamed to it, and has no other key.
   */
  ghost predicate IsCamelObject<V>(entries: seq<(string, V)>, obj: map<string, V>)
  {
    LastWins(RenamedKeys(entries), Values(entries), |entries|, obj)
  }

  /**
   * `toCamelCase(dbObj)`: `null` (`None`) gives `null`; a row, given as its own
   * properties in enumeration order, gives the object with renamed keys.
   */
  method ToCamelCase<V>(dbObj: Option<seq<(string, V)>>) returns (r: Option<map<string, V>>)
    ensures r.None? <==> dbObj.None?
    ensures dbObj.Some? ==> r.Some? && IsCamelObject(dbObj.value, r.value)
  {
    if dbObj.None? {
      return None;
    }
    var entries := dbObj.value;
    ghost var keys, values := RenamedKeys(entries), Values(entries);
    var newObj: map<string, V> := map[];
    var i := 0;
    while i < |entries|
      invariant i <= |entries|
      invariant LastWins(keys, values, i, newObj)
    {
      var newKey := CamelKey(entries[i].0);
      LastWinsStep(keys, values, i, newObj);
      newObj := newObj[newKey := entries[i].1];
      i := i + 1;
    }
    return Some(newObj);
  }
}
