/**
 * The result object `validate_email` builds: a Python dict from the
 * stage names to values, kept in insertion order (the order in which
 * `json.dumps` writes the keys).
 */
module ValidationResult {
  import opened Wrappers

  /** The keys `validate_email` writes, in source terms `email`, `syntactic_valid`, ... `valid`. */
  datatype Key =
    | Email | SyntacticValid | DomainValid | SmtpDeliverable
    | Authenticated | UserEngaged | MailboxAvailable | Valid

  /** The position of each key in the order `validate_email` writes them. */
  function Rank(k: Key): nat
  {
    match k
    case Email => 0
    case SyntacticValid => 1
    case DomainValid => 2
    case SmtpDeliverable => 3
    case Authenticated => 4
    case UserEngaged => 5
    case MailboxAvailable => 6
    case Valid => 7
  }

  datatype Value = Str(s: string) | Flag(b: bool)

  datatype Entry = Entry(key: Key, value: Value)

  /** A dict as the list of its entries in insertion order. */
  type Dict = seq<Entry>

  /** `list(d.keys())`. */
  function Keys(d: Dict): (ks: seq<Key>)
    ensures |ks| == |d|
    ensures forall i :: 0 <= i < |d| ==> ks[i] == d[i].key
  {
    if d == [] then [] else [d[0].key] + Keys(d[1..])
  }

  /** `d.get(k)`: the value stored under `k`, if any. */
  function Lookup(d: Dict, k: Key): (v: Option<Value>)
    ensures v.None? <==> k !in Keys(d)
    ensures v.Some? ==> Entry(k, v.value) in d
  {
    if d == [] then None
    else if d[0].key == k then Some(d[0].value)
    else Lookup(d[1..], k)
  }

  /**
   * `d[k] = v`: an existing key keeps its place and takes the new value;
   * a new key goes at the end.
   */
  function Assign(d: Dict, k: Key, v: Value): (r: Dict)
    ensures k in Keys(d) ==> Keys(r) == Keys(d)
    ensures k !in Keys(d) ==> r == d + [Entry(k, v)]
  {
    if d == [] then [Entry(k, v)]
    else if d[0].key == k then [Entry(k, v)] + d[1..]
    else [d[0]] + Assign(d[1..], k, v)
  }

  /** After `d[k] = v`, `k` maps to `v` and every other key to what it mapped to before. */
  lemma {:induction false} AssignThenLookup(d: Dict, k: Key, v: Value, k': Key)
    ensures Lookup(Assign(d, k, v), k') == if k' == k then Some(v) else Lookup(d, k')
  {
    if d != [] && d[0].key != k {
      var rest := Assign(d[1..], k, v);
      assert Assign(d, k, v) == [d[0]] + rest;
      assert d == [d[0]] + d[1..];
      AssignThenLookup(d[1..], k, v, k');
      LookupPastHead(d[0], rest, k');
      LookupPastHead(d[0], d[1..], k');
    }
  }

  /** Looking past a first entry with another key. */
  lemma LookupPastHead(e: Entry, rest: Dict, k: Key)
    ensures Lookup([e] + rest, k) == if e.key == k then Some(e.value) else Lookup(rest, k)
  {
    assert ([e] + rest)[1..] == rest;
  }

  /** In a dict whose keys are distinct, the value of the entry at `i` is what `Lookup` finds. */
  lemma {:induction false} LookupAt(d: Dict, i: nat)
    requires i < |d|
    requires forall a, b :: 0 <= a < b < |d| ==> d[a].key != d[b].key
    ensures Lookup(d, d[i].key) == Some(d[i].value)
  {
    if i > 0 {
      LookupAt(d[1..], i - 1);
    }
  }

  /** The keys of a concatenation are the concatenated keys. */
  lemma KeysConcat(a: Dict, b: Dict)
    ensures Keys(a + b) == Keys(a) + Keys(b)
  {
    var l, r := Keys(a + b), Keys(a) + Keys(b);
    assert |l| == |r|;
    forall i | 0 <= i < |l| ensures l[i] == r[i] {
      if i < |a| { assert (a + b)[i] == a[i]; } else { assert (a + b)[i] == b[i - |a|]; }
    }
  }
}
