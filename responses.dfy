/** The response set: the user's answers, keyed by preference name. */
module ResponseSet {

  /** (key, value) pairs in the order the keys were inserted; a dictionary,
      so no key appears twice. */
  type Responses = seq<(string, string)>

  predicate HasKey(rs: Responses, key: string)
  {
    exists i :: 0 <= i < |rs| && rs[i].0 == key
  }

  /** `responses.get(key, '')`: the value stored under `key`, or the empty
      string when there is none. */
  function Get(rs: Responses, key: string): (v: string)
    ensures HasKey(rs, key) ==> (key, v) in rs
    ensures !HasKey(rs, key) ==> v == ""
  {
    if rs == [] then ""
    else if rs[0].0 == key then rs[0].1
    else Get(rs[1..], key)
  }

  /** No key is stored twice, as in a dictionary. */
  predicate KeysUnique(rs: Responses)
  {
    forall i, j :: 0 <= i < j < |rs| ==> rs[i].0 != rs[j].0
  }

  /** With unique keys, each key gives back exactly the value stored with it. */
  lemma {:induction false} GetStored(rs: Responses, i: nat)
    requires KeysUnique(rs) && i < |rs|
    ensures Get(rs, rs[i].0) == rs[i].1
    decreases i
  {
    if i > 0 {
      assert KeysUnique(rs[1..]);
      GetStored(rs[1..], i - 1);
    }
  }
}
