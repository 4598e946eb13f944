// `Imsg::Value::Config`: the option keys every command understands, their
// baseline defaults, the merge of defaults and command-line flags that keeps
// only those keys, and the recursive conversion of a parsed YAML hash's
// string keys to symbols.
//
// A Ruby hash is modelled as its entries in insertion order, one per key.

module Config {
  import opened Str

  /** The Ruby values an option hash holds; a hash is its own kind of value
      and may serve as a key. */
  datatype Value = Nil | Bool(b: bool) | Int(i: int) | Text(s: string) | Symbol(name: string) | Hash(entries: seq<Entry>)

  datatype Entry = Entry(key: Value, value: Value)

  function Keys(h: seq<Entry>): (ks: seq<Value>)
    ensures |ks| == |h| && forall i {:trigger ks[i]} :: 0 <= i < |h| ==> ks[i] == h[i].key
  {
    if h == [] then [] else [h[0].key] + Keys(h[1..])
  }

  /** A hash: no key twice. */
  predicate Unique(h: seq<Entry>)
  {
    h == [] || (h[0].key !in Keys(h[1..]) && Unique(h[1..]))
  }

  /** `h[k]`, `None` for a missing key. */
  function Lookup(h: seq<Entry>, k: Value): (r: Option<Value>)
    ensures r.None? <==> k !in Keys(h)
  {
    if h == [] then None else if h[0].key == k then Some(h[0].value) else Lookup(h[1..], k)
  }

  /** `h[k] = v`: an existing key keeps its place and takes the new value; a
      new key goes at the end. */
  function Store(h: seq<Entry>, k: Value, v: Value): (r: seq<Entry>)
    ensures Keys(r) == if k in Keys(h) then Keys(h) else Keys(h) + [k]
    ensures k !in Keys(h) ==> r == h + [Entry(k, v)]
  {
    if h == [] then [Entry(k, v)]
    else if h[0].key == k then [Entry(k, v)] + h[1..]
    else [h[0]] + Store(h[1..], k, v)
  }

  /** After a store the key reads back the new value and every other key
      its old one; the result is still a hash when `h` was. */
  lemma {:induction false} StoreLookup(h: seq<Entry>, k: Value, v: Value, k': Value)
    ensures Lookup(Store(h, k, v), k') == if k' == k then Some(v) else Lookup(h, k')
    ensures Unique(h) ==> Unique(Store(h, k, v))
  {
    if h != [] && h[0].key != k {
      StoreLookup(h[1..], k, v, k');
      assert Store(h, k, v)[1..] == Store(h[1..], k, v);
    } else if h != [] {
      assert Store(h, k, v)[1..] == h[1..];
    }
  }

  /** A store keeps a hash a hash. */
  lemma StoreUnique(h: seq<Entry>, k: Value, v: Value)
    requires Unique(h)
    ensures Unique(Store(h, k, v))
  {
    StoreLookup(h, k, v, k);
  }

  /** `a.merge(b)`: the entries of `b`, in order, stored into `a`. */
  function MergeInto(a: seq<Entry>, b: seq<Entry>): (r: seq<Entry>)
    decreases |b|
  {
    if b == [] then a else MergeInto(Store(a, b[0].key, b[0].value), b[1..])
  }

  /** Merged, a key reads its value in `b` when `b` has it, else its value in `a`. */
  lemma {:induction false} MergeLookup(a: seq<Entry>, b: seq<Entry>, k: Value)
    requires Unique(b)
    ensures Unique(a) ==> Unique(MergeInto(a, b))
    ensures Lookup(MergeInto(a, b), k) == if k in Keys(b) then Lookup(b, k) else Lookup(a, k)
    decreases |b|
  {
    if b != [] {
      StoreLookup(a, b[0].key, b[0].value, k);
      MergeLookup(Store(a, b[0].key, b[0].value), b[1..], k);
    }
  }

  /** `h.slice(*keys)`: the entries of the given keys, in the order of `keys`. */
  function Slice(h: seq<Entry>, keys: seq<Value>): (r: seq<Entry>)
    ensures forall i :: 0 <= i < |r| ==> r[i].key in keys
  {
    if keys == [] then []
    else
      var rest := Slice(h, keys[1..]);
      match Lookup(h, keys[0])
      case None => rest
      case Some(v) => [Entry(keys[0], v)] + rest
  }

  /** A slice holds each asked-for key with its value and nothing more. */
  lemma {:induction false} SliceLookup(h: seq<Entry>, keys: seq<Value>, k: Value)
    ensures Lookup(Slice(h, keys), k) == if k in keys then Lookup(h, k) else None
  {
    if keys != [] {
      SliceLookup(h, keys[1..], k);
    }
  }

  /** `KEYS`. */
  const KeyNames: seq<string> := [
    "messages", "address_book", "no_address_book", "backup", "limit", "from_date", "to_date", "outdir",
    "page_size", "skip_attachments", "open_after_export", "display_name", "flip", "sort", "order", "count"]

  function Syms(names: seq<string>): (ks: seq<Value>)
    ensures |ks| == |names| && forall i :: 0 <= i < |names| ==> ks[i] == Symbol(names[i])
  {
    if names == [] then [] else [Symbol(names[0])] + Syms(names[1..])
  }

  function AllowedKeys(): (ks: seq<Value>)
    ensures |ks| == 16
  {
    Syms(KeyNames)
  }

  /** The values of `DEFAULTS`, key by key in the order of `KEYS`. */
  const DefaultValues: seq<Value> := [
    Nil, Nil, Bool(false), Bool(true), Nil, Nil, Nil, Nil,
    Int(1000), Bool(false), Nil, Nil, Bool(false), Nil, Nil, Bool(false)]

  /** A hash literal: each key with the value at its position. */
  function Zip(ks: seq<Value>, vs: seq<Value>): (h: seq<Entry>)
    requires |ks| == |vs|
    ensures Keys(h) == ks
  {
    if ks == [] then [] else [Entry(ks[0], vs[0])] + Zip(ks[1..], vs[1..])
  }

  /** A key of a hash literal reads its value when no earlier key equals it. */
  lemma {:induction false} ZipLookup(ks: seq<Value>, vs: seq<Value>, i: nat)
    requires |ks| == |vs| && i < |ks|
    requires forall j :: 0 <= j < i ==> ks[j] != ks[i]
    ensures Lookup(Zip(ks, vs), ks[i]) == Some(vs[i])
  {
    if i > 0 {
      ZipLookup(ks[1..], vs[1..], i - 1);
    }
  }

  /** `DEFAULTS`. */
  function Defaults(): (d: seq<Entry>)
    ensures Keys(d) == AllowedKeys()
  {
    Zip(AllowedKeys(), DefaultValues)
  }

  function OrEmpty(h: Option<seq<Entry>>): seq<Entry>
  {
    match h
    case Some(e) => e
    case None => []
  }

  /** `Config.merge`: flags over defaults, a missing hash read as empty,
      sliced to the allowed keys. */
  function Merge(defaults: Option<seq<Entry>>, flags: Option<seq<Entry>>): (r: seq<Entry>)
    ensures forall i :: 0 <= i < |r| ==> r[i].key in AllowedKeys()
  {
    Slice(MergeInto(OrEmpty(defaults), OrEmpty(flags)), AllowedKeys())
  }

  /** The merged options hold only allowed keys; an allowed key takes the
      flag's value when one is given and the default's otherwise. */
  lemma MergeKeeps(defaults: Option<seq<Entry>>, flags: Option<seq<Entry>>, k: Value)
    requires Unique(OrEmpty(flags))
    ensures forall i :: 0 <= i < |Merge(defaults, flags)| ==> Merge(defaults, flags)[i].key in AllowedKeys()
    ensures var d, f := OrEmpty(defaults), OrEmpty(flags);
      Lookup(Merge(defaults, flags), k) ==
        if k !in AllowedKeys() then None else if Lookup(f, k).Some? then Lookup(f, k) else Lookup(d, k)
  {
    var d, f := OrEmpty(defaults), OrEmpty(flags);
    MergeLookup(d, f, k);
    SliceLookup(MergeInto(d, f), AllowedKeys(), k);
  }

  /** Over the baseline defaults every allowed key has a value, so a flag
      can only change values, never drop an option. */
  lemma DefaultsCoverKeys(flags: Option<seq<Entry>>, k: Value)
    requires Unique(OrEmpty(flags)) && k in AllowedKeys()
    ensures Lookup(Merge(Some(Defaults()), flags), k).Some?
    ensures Lookup(OrEmpty(flags), k).None? ==> Lookup(Merge(Some(Defaults()), flags), k) == Lookup(Defaults(), k)
  {
    MergeKeeps(Some(Defaults()), flags, k);
  }

  // ---------------------------------------------------------------- symbolize_keys

  /** `k.respond_to?(:to_sym) ? k.to_sym : k`: strings become symbols. */
  function ToSym(k: Value): (r: Value)
    ensures !r.Text?
    ensures !k.Text? ==> r == k
  {
    if k.Text? then Symbol(k.s) else k
  }

  /** `v.is_a?(Hash) ? symbolize_keys(v) : v`. */
  function Symbolize(v: Value): (r: Value)
    ensures r.Hash? <==> v.Hash?
    ensures !v.Hash? ==> r == v
    ensures Symbolic(r)
    decreases v
  {
    if v.Hash? then
      var es := SymbolizePrefix(v, |v.entries|);
      SymbolicFromAll(Hash(es), 0);
      Hash(es)
    else v
  }

  /** The `each_with_object` over the first `n` entries of the hash `h`:
      each entry stored under its converted key with its converted value. */
  function SymbolizePrefix(h: Value, n: nat): (r: seq<Entry>)
    requires h.Hash? && n <= |h.entries|
    ensures Unique(r) && SymbolicEntries(r)
    decreases h, n
  {
    if n == 0 then []
    else
      var e := h.entries[n - 1];
      var prev := SymbolizePrefix(h, n - 1);
      StoreUnique(prev, ToSym(e.key), Symbolize(e.value));
      StoreSymbolic(prev, ToSym(e.key), Symbolize(e.value));
      Store(prev, ToSym(e.key), Symbolize(e.value))
  }

  /** `symbolize_keys`. */
  function SymbolizeKeys(h: seq<Entry>): (r: seq<Entry>)
    ensures Unique(r) && SymbolicEntries(r)
  {
    SymbolizePrefix(Hash(h), |h|)
  }

  /** A value with no string key anywhere in it, and no key twice in any of
      its hashes. */
  predicate Symbolic(v: Value)
    decreases v, 1
  {
    v.Hash? ==> Unique(v.entries) && SymbolicFrom(v, 0)
  }

  /** The entries of the hash `h` from `i` on have non-string keys and
      symbolic values. */
  predicate SymbolicFrom(h: Value, i: nat)
    requires h.Hash?
    decreases h, 0, |h.entries| - i
  {
    i >= |h.entries| || (!h.entries[i].key.Text? && Symbolic(h.entries[i].value) && SymbolicFrom(h, i + 1))
  }

  lemma {:induction false} SymbolicFromAll(h: Value, i: nat)
    requires h.Hash? && i <= |h.entries|
    requires forall j :: i <= j < |h.entries| ==> !h.entries[j].key.Text? && Symbolic(h.entries[j].value)
    ensures SymbolicFrom(h, i)
    decreases |h.entries| - i
  {
    if i < |h.entries| {
      SymbolicFromAll(h, i + 1);
    }
  }

  lemma {:induction false} SymbolicFromEach(h: Value, i: nat)
    requires h.Hash? && i <= |h.entries| && SymbolicFrom(h, i)
    ensures forall j :: i <= j < |h.entries| ==> !h.entries[j].key.Text? && Symbolic(h.entries[j].value)
    decreases |h.entries| - i
  {
    if i < |h.entries| {
      SymbolicFromEach(h, i + 1);
    }
  }

  /** A store keeps every entry of `h` in its place except one, which may
      become the stored entry, and may add the stored entry at the end. */
  lemma {:induction false} StoreEntries(h: seq<Entry>, k: Value, v: Value)
    ensures var r := Store(h, k, v);
      forall i :: 0 <= i < |r| ==> r[i] == Entry(k, v) || (i < |h| && r[i] == h[i])
  {
    if h != [] && h[0].key != k {
      StoreEntries(h[1..], k, v);
      var r := Store(h, k, v);
      assert forall i :: 1 <= i < |r| ==> r[i] == Store(h[1..], k, v)[i - 1];
    }
  }

  lemma SymbolizePrefixStep(h: Value, n: nat)
    requires h.Hash? && 0 < n <= |h.entries|
    ensures SymbolizePrefix(h, n) ==
      Store(SymbolizePrefix(h, n - 1), ToSym(h.entries[n - 1].key), Symbolize(h.entries[n - 1].value))
  {
  }

  /** Every entry has a non-string key and a symbolic value. */
  predicate SymbolicEntries(es: seq<Entry>)
  {
    forall i :: 0 <= i < |es| ==> !es[i].key.Text? && Symbolic(es[i].value)
  }

  /** Storing a non-string key with a symbolic value keeps the entries symbolic. */
  lemma StoreSymbolic(h: seq<Entry>, k: Value, v: Value)
    requires SymbolicEntries(h) && !k.Text? && Symbolic(v)
    ensures SymbolicEntries(Store(h, k, v))
  {
    StoreEntries(h, k, v);
    var r := Store(h, k, v);
    forall i | 0 <= i < |r| ensures !r[i].key.Text? && Symbolic(r[i].value) {
      if r[i] != Entry(k, v) {
        assert r[i] == h[i];
      }
    }
  }

  /** The value last stored under a key that converts to `k`. */
  function LastFor(h: seq<Entry>, k: Value): (r: Option<Value>)
  {
    if h == [] then None
    else if ToSym(h[|h| - 1].key) == k then Some(h[|h| - 1].value)
    else LastFor(h[..|h| - 1], k)
  }

  /** A converted key reads the converted value of the last entry whose key
      converts to it; `"name"` and `:name` in one hash collapse, the later
      one winning. Non-hash values come through unchanged. */
  lemma {:induction false} SymbolizeLookup(h: Value, n: nat, k: Value)
    requires h.Hash? && n <= |h.entries|
    ensures Lookup(SymbolizePrefix(h, n), k) == SymbolizeOpt(LastFor(h.entries[..n], k))
  {
    if n > 0 {
      var e := h.entries[n - 1];
      assert e in h.entries;
      SymbolizeLookup(h, n - 1, k);
      var prev := SymbolizePrefix(h, n - 1);
      StoreLookup(prev, ToSym(e.key), Symbolize(e.value), k);
      LastForStep(h.entries, n, k);
    }
  }

  /** `Symbolize` under an optional lookup result. */
  function SymbolizeOpt(o: Option<Value>): (r: Option<Value>)
    ensures r.Some? <==> o.Some?
  {
    if o.Some? then Some(Symbolize(o.value)) else None
  }

  lemma LastForStep(es: seq<Entry>, n: nat, k: Value)
    requires 0 < n <= |es|
    ensures LastFor(es[..n], k) ==
      if ToSym(es[n - 1].key) == k then Some(es[n - 1].value) else LastFor(es[..n - 1], k)
  {
    assert es[..n][..n - 1] == es[..n - 1];
  }

  /** A converted hash is left as it is by a second conversion. */
  lemma {:induction false} SymbolizeFixed(v: Value)
    requires Symbolic(v)
    ensures Symbolize(v) == v
    decreases v
  {
    if v.Hash? {
      SymbolizePrefixFixed(v, |v.entries|);
      assert v.entries[..|v.entries|] == v.entries;
    }
  }

  lemma {:induction false} SymbolizePrefixFixed(h: Value, n: nat)
    requires h.Hash? && Symbolic(h) && n <= |h.entries|
    ensures SymbolizePrefix(h, n) == h.entries[..n]
    decreases h, n
  {
    if n > 0 {
      var e := h.entries[n - 1];
      assert e in h.entries;
      SymbolicEntryAt(h, n - 1);
      SymbolizePrefixFixed(h, n - 1);
      SymbolizeFixed(e.value);
      var prev := h.entries[..n - 1];
      UniqueNotEarlier(h.entries, n);
      SymbolizePrefixStep(h, n);
      assert ToSym(e.key) == e.key && Symbolize(e.value) == e.value;
      assert Store(prev, e.key, e.value) == prev + [e];
      PrefixSnoc(h.entries, n);
    }
  }

  lemma PrefixSnoc(es: seq<Entry>, n: nat)
    requires 0 < n <= |es|
    ensures es[..n - 1] + [es[n - 1]] == es[..n]
  {
  }

  lemma SymbolicEntryAt(h: Value, j: nat)
    requires h.Hash? && Symbolic(h) && j < |h.entries|
    ensures !h.entries[j].key.Text? && Symbolic(h.entries[j].value)
  {
    SymbolicFromEach(h, 0);
  }

  /** In a hash no key repeats an earlier one. */
  lemma {:induction false} UniqueNotEarlier(h: seq<Entry>, n: nat)
    requires Unique(h) && 0 < n <= |h|
    ensures h[n - 1].key !in Keys(h[..n - 1])
  {
    if n > 1 {
      UniqueNotEarlier(h[1..], n - 1);
      assert h[1..][..n - 2] == h[1..n - 1];
      assert Keys(h[..n - 1]) == [h[0].key] + Keys(h[1..n - 1]);
      assert h[0].key != h[n - 1].key by { assert Keys(h[1..])[n - 2] == h[n - 1].key; }
    }
  }

  /** `symbolize_keys` is idempotent. */
  lemma SymbolizeIdempotent(h: seq<Entry>)
    ensures SymbolizeKeys(SymbolizeKeys(h)) == SymbolizeKeys(h)
  {
    SymbolizeFixed(Symbolize(Hash(h)));
  }
}
