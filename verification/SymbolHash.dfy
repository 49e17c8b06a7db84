/**
  The symbol table: sym_lookup and sym_find on hash buckets of linked symbols.
 */
module SymbolHash {
  import opened Expressions

  /** What a symbol was looked up as: with no flag, SYMBOL_CONST or SYMBOL_CHOICE. */
  datatype Kind = Ordinary | Const | Choice

  class HashSymbol {
    const name: Option<string>
    const kind: Kind
    const next: HashSymbol?
    /** When it was made. */
    ghost const birth: nat

    constructor (name: Option<string>, kind: Kind, next: HashSymbol?, ghost birth: nat)
      ensures this.name == name && this.kind == kind && this.next == next && this.birth == birth
    {
      this.name, this.kind, this.next, this.birth := name, kind, next, birth;
    }
  }

  const HASHSIZE := 9973

  /** A char of the program as an int, and that as unsigned. */
  function Widened(c: char): bv32 {
    var b := c as int % 256;
    if b < 128 then b as bv32 else (b + 0xFFFF_FF00) as bv32
  }

  function Mix(hash: bv32, c: char): bv32 {
    (hash ^ Widened(c)) * 0x01000193
  }

  /** FNV-1a with 32 bits */
  function StrHash(s: string): bv32 {
    if s == "" then 2166136261 else Mix(StrHash(s[..|s| - 1]), s[|s| - 1])
  }

  function Bucket(name: string): (i: nat)
    ensures i < HASHSIZE
  {
    (StrHash(name) as int) % HASHSIZE
  }

  /** strhash, one character after the other */
  method HashOf(s: string) returns (hash: bv32)
    ensures hash == StrHash(s)
  {
    hide Mix;
    hash := 2166136261;
    for i := 0 to |s|
      invariant hash == StrHash(s[..i])
    {
      assert s[..i + 1][..i] == s[..i];
      hash := Mix(hash, s[i]);
    }
    assert s[..|s|] == s;
  }

  /** Known values of 32-bit FNV-1a; a byte from 128 on counts with its sign. */
  lemma KnownHashes()
    ensures StrHash("") == 0x811c9dc5 && StrHash("a") == 0xe40c292c && StrHash("foo") == 0xa9f37ed7
    ensures StrHash([255 as char]) == 0xf9f3a14e
  {
    hide StrHash;
    EmptyHash();
    HashNext("", 'a', 0x811c9dc5);
    HashNext("", 255 as char, 0x811c9dc5);
    HashNext("", 'f', 0x811c9dc5);
    HashNext("f", 'o', 0xe30c2799);
    HashNext("fo", 'o', 0x6222e842);
    MixValues();
    hide Mix;
    assert "" + ['a'] == "a" && "" + ['f'] == "f" && "f" + ['o'] == "fo" && "fo" + ['o'] == "foo";
    assert "" + [255 as char] == [255 as char];
  }

  lemma EmptyHash()
    ensures StrHash("") == 0x811c9dc5
  {
  }

  lemma HashNext(s: string, c: char, hash: bv32)
    ensures StrHash(s) == hash ==> StrHash(s + [c]) == Mix(hash, c)
  {
    hide Mix;
    assert (s + [c])[..|s|] == s;
  }

  lemma MixValues()
    ensures Mix(0x811c9dc5, 'a') == 0xe40c292c && Mix(0x811c9dc5, 255 as char) == 0xf9f3a14e
    ensures Mix(0x811c9dc5, 'f') == 0xe30c2799 && Mix(0xe30c2799, 'o') == 0x6222e842 && Mix(0x6222e842, 'o') == 0xa9f37ed7
  {
    WidenedValues();
    hide Widened;
  }

  lemma WidenedValues()
    ensures Widened('a') == 0x61 && Widened('f') == 0x66 && Widened('o') == 0x6f && Widened(255 as char) == 0xffff_ffff
  {
    WidenedIs('a', 97, 0x61);
    WidenedIs('f', 102, 0x66);
    WidenedIs('o', 111, 0x6f);
    WidenedIs(255 as char, 0xffff_ffff, 0xffff_ffff);
  }

  lemma WidenedIs(c: char, n: int, w: bv32)
    requires n == (if c as int % 256 < 128 then c as int % 256 else c as int % 256 + 0xffff_ff00)
    requires w as int == n
    ensures Widened(c) == w
  {
    assert n as bv32 == w;
  }

  predicate Reserved(name: string) {
    name == "y" || name == "m" || name == "n"
  }

  type Key = (string, Kind)

  /** A call of sym_lookup, with a name or without one. */
  datatype Request = ByName(name: string, kind: Kind) | Anonymous(kind: Kind)

  /** Do the calls ask for the same symbol?  For y, m and n the kind does not matter;
      a call without a name asks for a new symbol. */
  predicate SameSymbol(requests: seq<Request>, i: nat, j: nat)
    requires i < |requests| && j < |requests|
  {
    var a, b := requests[i], requests[j];
    i == j || (a.ByName? && b.ByName? && a.name == b.name && (Reserved(a.name) || a.kind == b.kind))
  }

  class SymbolTable {
    const yes: HashSymbol
    const mod: HashSymbol
    const no: HashSymbol
    const buckets: array<HashSymbol?>
    /** The symbols of each bucket, and the table as a map. */
    ghost var chains: seq<seq<HashSymbol>>
    ghost var index: map<Key, HashSymbol>
    ghost var clock: nat

    constructor ()
      ensures Valid() && index == map[] && fresh(buckets)
    {
      yes := new HashSymbol(Some("y"), Const, null, 0);
      mod := new HashSymbol(Some("m"), Const, null, 0);
      no := new HashSymbol(Some("n"), Const, null, 0);
      buckets := new HashSymbol?[HASHSIZE](_ => null);
      chains := seq(HASHSIZE, _ => []);
      index, clock := map[], 0;
    }

    static ghost predicate LinkedAt(chain: seq<HashSymbol>, j: nat)
      requires j < |chain|
    {
      chain[j].next == if j + 1 < |chain| then chain[j + 1] else null
    }

    /** The chain of a bucket is linked, newest symbol first. */
    static ghost predicate Chained(head: HashSymbol?, chain: seq<HashSymbol>) {
      && head == (if chain == [] then null else chain[0])
      && (forall j: nat :: j < |chain| ==> LinkedAt(chain, j))
      && (forall j, k :: 0 <= j < k < |chain| ==> chain[j].birth > chain[k].birth)
    }

    /** The named symbols of bucket i are exactly those the map has there. */
    static ghost predicate Indexed(i: nat, chain: seq<HashSymbol>, index: map<Key, HashSymbol>) {
      && (forall j :: 0 <= j < |chain| && chain[j].name.Some? ==>
        && Bucket(chain[j].name.value) == i && !Reserved(chain[j].name.value)
        && (chain[j].name.value, chain[j].kind) in index
        && index[(chain[j].name.value, chain[j].kind)] == chain[j])
      && (forall k <- index :: Bucket(k.0) == i ==> index[k] in chain)
    }

    function Constant(name: string): HashSymbol
      requires Reserved(name)
    {
      if name == "y" then yes else if name == "m" then mod else no
    }

    ghost predicate Valid()
      reads this, buckets
    {
      && yes.name == Some("y") && mod.name == Some("m") && no.name == Some("n")
      && buckets.Length == HASHSIZE == |chains|
      && (forall i :: 0 <= i < HASHSIZE ==> Chained(buckets[i], chains[i]) && Indexed(i, chains[i], index))
      && (forall i, j :: 0 <= i < HASHSIZE && 0 <= j < |chains[i]| ==> chains[i][j].birth < clock)
      && (forall k <- index :: index[k].name == Some(k.0) && index[k].kind == k.1)
    }

    /** Of all symbols in the table no two share both name and kind. */
    lemma AtMostOne(i: nat, j: nat, k: nat, l: nat)
      requires Valid()
      requires i < HASHSIZE && j < |chains[i]| && k < HASHSIZE && l < |chains[k]|
      requires chains[i][j].name.Some? && chains[i][j].name == chains[k][l].name && chains[i][j].kind == chains[k][l].kind
      ensures i == k && j == l
    {
      hide Bucket;
      assert Indexed(i, chains[i], index) && Indexed(k, chains[k], index);
      assert Chained(buckets[i], chains[i]);
    }

    method ReservedSymbol(name: string) returns (r: HashSymbol?)
      ensures r == if Reserved(name) then Constant(name) else null
    {
      r := null;
      if |name| == 1 {
        match name[0]
        case 'y' => r := yes;
        case 'm' => r := mod;
        case 'n' => r := no;
        case _ =>
      }
    }

    /** sym_lookup of a name: the symbol the map has for it, or a new one. */
    method Lookup(name: string, kind: Kind) returns (r: HashSymbol)
      requires Valid()
      modifies this`chains, this`index, this`clock, buckets
      ensures Valid()
      ensures Reserved(name) ==> index == old(index) && r == Constant(name)
      ensures r.name == Some(name) && (!Reserved(name) ==> r.kind == kind)
      ensures !Reserved(name) && (name, kind) in old(index) ==> r == old(index)[(name, kind)] && index == old(index)
      ensures !Reserved(name) && (name, kind) !in old(index) ==> fresh(r) && index == old(index)[(name, kind) := r]
    {
      hide Bucket;
      var reserved := ReservedSymbol(name);
      if reserved != null {
        return reserved;
      }
      var hash := HashOf(name);
      var i := hash as int % HASHSIZE;
      BucketIs(name, i);
      var symbol := buckets[i];
      ghost var chain, j := chains[i], 0;
      assert Chained(buckets[i], chain) && Indexed(i, chain, index);
      while symbol != null
        invariant 0 <= j <= |chain| && symbol == if j < |chain| then chain[j] else null
        invariant forall k :: 0 <= k < j ==> !(chain[k].name == Some(name) && chain[k].kind == kind)
        decreases |chain| - j
      {
        if symbol.name == Some(name) && symbol.kind == kind {
          return symbol;
        }
        assert LinkedAt(chain, j);
        symbol := symbol.next;
        j := j + 1;
      }
      r := Insert(i, Some(name), kind);
    }

    lemma BucketIs(name: string, i: int)
      requires i == (StrHash(name) as int) % HASHSIZE
      ensures i == Bucket(name)
    {
    }

    /** A new symbol at the head of bucket i. */
    method Insert(i: nat, name: Option<string>, kind: Kind) returns (r: HashSymbol)
      requires Valid() && i < HASHSIZE
      requires name.Some? ==> !Reserved(name.value) && (name.value, kind) !in index && i == Bucket(name.value)
      modifies this`chains, this`index, this`clock, buckets
      ensures Valid() && fresh(r) && r.name == name && r.kind == kind
      ensures index == if name.Some? then old(index)[(name.value, kind) := r] else old(index)
    {
      hide Bucket, Chained, Indexed;
      r := new HashSymbol(name, kind, buckets[i], clock);
      buckets[i] := r;
      ghost var chain := chains[i];
      chains := chains[i := [r] + chain];
      clock := clock + 1;
      if name.Some? {
        index := index[(name.value, kind) := r];
      }
      ChainedCons(r, chain, chains[i]);
      forall k: nat | k < HASHSIZE
        ensures Indexed(k, chains[k], index)
      {
        IndexedInsert(i, r, k, old(chains[k]), old(index));
      }
      forall k | 0 <= k < HASHSIZE
        ensures Chained(buckets[k], chains[k])
      {
        assert k != i ==> chains[k] == old(chains[k]) && buckets[k] == old(buckets[k]);
      }
    }

    static lemma IndexedInsert(i: nat, r: HashSymbol, k: nat, chain: seq<HashSymbol>, index: map<Key, HashSymbol>)
      requires Indexed(k, chain, index)
      requires r.name.Some? ==> !Reserved(r.name.value) && (r.name.value, r.kind) !in index && i == Bucket(r.name.value)
      ensures Indexed(k, if k == i then [r] + chain else chain,
        if r.name.Some? then index[(r.name.value, r.kind) := r] else index)
    {
    }

    static lemma ChainedCons(r: HashSymbol, chain: seq<HashSymbol>, longer: seq<HashSymbol>)
      requires Chained(r.next, chain) && longer == [r] + chain
      requires forall j :: 0 <= j < |chain| ==> chain[j].birth < r.birth
      ensures Chained(r, longer)
    {
      forall j: nat | j < |longer|
        ensures LinkedAt(longer, j)
      {
        if j > 0 {
          assert LinkedAt(chain, j - 1);
        }
      }
    }

    /** sym_lookup without a name, for an anonymous choice. */
    method LookupAnonymous(kind: Kind) returns (r: HashSymbol)
      requires Valid()
      modifies this`chains, this`index, this`clock, buckets
      ensures Valid() && fresh(r) && r.name == None && r.kind == kind && index == old(index)
    {
      r := Insert(0, None, kind);
    }

    /** sym_find: the newest symbol of that name that is not a constant. */
    method Find(name: string) returns (r: HashSymbol?)
      requires Valid()
      ensures Reserved(name) ==> r == Constant(name)
      ensures !Reserved(name) && r == null ==> (name, Ordinary) !in index && (name, Choice) !in index
      ensures !Reserved(name) && r != null ==> r.kind != Const && (name, r.kind) in index && r == index[(name, r.kind)]
      ensures !Reserved(name) && r != null ==>
        forall kind :: kind != Const && kind != r.kind && (name, kind) in index ==> index[(name, kind)].birth < r.birth
    {
      hide Bucket;
      r := ReservedSymbol(name);
      if r != null {
        return;
      }
      var hash := HashOf(name);
      var i := hash as int % HASHSIZE;
      BucketIs(name, i);
      r := buckets[i];
      ghost var chain, j := chains[i], 0;
      assert Chained(buckets[i], chain) && Indexed(i, chain, index);
      while r != null
        invariant 0 <= j <= |chain| && r == if j < |chain| then chain[j] else null
        invariant forall k :: 0 <= k < j ==> !(chain[k].name == Some(name) && chain[k].kind != Const)
        decreases |chain| - j
      {
        if r.name == Some(name) && r.kind != Const {
          break;
        }
        assert LinkedAt(chain, j);
        r := r.next;
        j := j + 1;
      }
      forall kind: Kind | kind != Const && (name, kind) in index
        ensures r != null && (kind != r.kind ==> index[(name, kind)].birth < r.birth)
      {
        var s := index[(name, kind)];
        var k :| 0 <= k < |chain| && chain[k] == s;
      }
    }

    /** Any run of lookups: calls give the same symbol if and only if they ask for
        the same one. */
    method LookupAll(requests: seq<Request>) returns (r: seq<HashSymbol>)
      requires Valid()
      modifies this`chains, this`index, this`clock, buckets
      ensures Valid() && |r| == |requests|
      ensures forall i, j :: 0 <= i < |r| && 0 <= j < |r| ==> (r[i] == r[j] <==> SameSymbol(requests, i, j))
      ensures forall i :: 0 <= i < |r| ==> Answers(requests[i], r[i])
      ensures forall k <- old(index) :: k in index && index[k] == old(index)[k]
    {
      hide Valid, Reserved;
      r := [];
      for i := 0 to |requests|
        invariant Valid() && |r| == i
        invariant forall j :: 0 <= j < i ==> Answers(requests[j], r[j])
        invariant forall j, k :: 0 <= j < i && 0 <= k < i ==> (r[j] == r[k] <==> SameSymbol(requests, j, k))
        invariant forall k <- old(index) :: k in index && index[k] == old(index)[k]
      {
        var s;
        match requests[i] {
          case ByName(name, kind) => s := Lookup(name, kind);
          case Anonymous(kind) => s := LookupAnonymous(kind);
        }
        r := r + [s];
      }
    }

    /** The symbol is one that the request may give. */
    ghost predicate Answers(q: Request, s: HashSymbol)
      reads this`index
    {
      match q
      case ByName(name, kind) =>
        && s.name == Some(name)
        && if Reserved(name) then s == Constant(name)
           else (name, kind) in index && index[(name, kind)] == s && s.kind == kind
      case Anonymous(kind) => s.name == None && s.kind == kind
    }

    /** sym_find and then sym_lookup(name, 0): they agree if and only if there is an
        ordinary symbol of that name, and no choice of that name is newer. */
    method FindAgrees(name: string) returns (found: HashSymbol?, looked: HashSymbol)
      requires Valid()
      modifies this`chains, this`index, this`clock, buckets
      ensures Valid()
      ensures Reserved(name) ==> found == looked
      ensures !Reserved(name) ==>
        (found == looked <==>
          && (name, Ordinary) in old(index)
          && ((name, Choice) in old(index) ==>
            old(index)[(name, Choice)].birth < old(index)[(name, Ordinary)].birth))
    {
      found := Find(name);
      looked := Lookup(name, Ordinary);
    }
  }
}
