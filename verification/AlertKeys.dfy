/** The string keys of the alert engine's state, and why different owners never share one. */
module AlertKeys {

  const SEPARATOR: char := '|'

  predicate SepFree(s: string) {
    SEPARATOR !in s
  }

  /** Decimal rendering of a rule id. */
  function Digits(n: nat): (s: string)
    ensures s != [] && SepFree(s)
  {
    if n < 10 then ["0123456789"[n]] else Digits(n / 10) + ["0123456789"[n % 10]]
  }

  function DigitValue(c: char): int {
    c as int - '0' as int
  }

  function Value(s: string): int {
    if s == [] then 0 else 10 * Value(s[..|s| - 1]) + DigitValue(s[|s| - 1])
  }

  lemma DigitChar(d: nat)
    requires d < 10
    ensures DigitValue("0123456789"[d]) == d
  {
  }

  /** Reading the rendering back gives the id, so renderings are unique. */
  lemma {:induction false} DigitsRoundTrip(n: nat)
    ensures Value(Digits(n)) == n
  {
    var s := Digits(n);
    if n < 10 {
      DigitChar(n);
      assert s[..0] == [];
    } else {
      DigitsRoundTrip(n / 10);
      DigitChar(n % 10);
      assert s[..|s| - 1] == Digits(n / 10);
    }
  }

  lemma DigitsInjective(m: nat, n: nat)
    requires Digits(m) == Digits(n)
    ensures m == n
  {
    DigitsRoundTrip(m);
    DigitsRoundTrip(n);
  }

  /** Everything a rule stores is filed under its id. */
  function Owned(id: nat, rest: string): string {
    Digits(id) + [SEPARATOR] + rest
  }

  function MetricBufferKey(metric: string, path: string): string {
    if path == "" then metric else metric + [SEPARATOR] + path
  }

  function EscalationKey(id: nat, metric: string, path: string): string {
    Owned(id, MetricBufferKey(metric, path))
  }

  function SpeciesCooldownKey(id: nat, species: string): string {
    Owned(id, species)
  }

  function DetectionKeyPrefix(id: nat, species: string): string {
    Owned(id, species + [SEPARATOR])
  }

  function DetectionKey(id: nat, species: string, episode: string): string {
    Owned(id, species + [SEPARATOR] + episode)
  }

  lemma FirstSeparator(a: string, x: string)
    requires SepFree(a)
    ensures var k := a + [SEPARATOR] + x; k[|a|] == SEPARATOR && forall i :: 0 <= i < |a| ==> k[i] != SEPARATOR
  {
  }

  /** The first separator splits a key in only one way. */
  lemma SplitUnique(a: string, x: string, b: string, y: string)
    requires SepFree(a) && SepFree(b)
    requires a + [SEPARATOR] + x == b + [SEPARATOR] + y
    ensures a == b && x == y
  {
    var k := a + [SEPARATOR] + x;
    assert k[|a|] == SEPARATOR && k[|b|] == SEPARATOR;
    assert |a| == |b| by {
      FirstSeparator(a, x);
      FirstSeparator(b, y);
    }
    assert a == k[..|a|] && b == k[..|b|];
    assert x == k[|a| + 1..] && y == k[|b| + 1..];
  }

  /** Keys of different rules differ, whatever follows the id. */
  lemma OwnersDiffer(id: nat, x: string, id': nat, y: string)
    ensures Owned(id, x) == Owned(id', y) <==> id == id' && x == y
  {
    if Owned(id, x) == Owned(id', y) {
      SplitUnique(Digits(id), x, Digits(id'), y);
      DigitsInjective(id, id');
    }
  }

  lemma BareKeyDiffers(id: nat, id': nat, y: string)
    ensures Digits(id) != Owned(id', y)
  {
    assert Owned(id', y)[|Digits(id')|] == SEPARATOR;
  }

  lemma BufferKeyInjective(metric: string, path: string, metric': string, path': string)
    requires SepFree(metric) && SepFree(metric')
    ensures MetricBufferKey(metric, path) == MetricBufferKey(metric', path') <==> metric == metric' && path == path'
  {
    var k, k' := MetricBufferKey(metric, path), MetricBufferKey(metric', path');
    assert path != "" ==> k[|metric|] == SEPARATOR;
    assert path' != "" ==> k'[|metric'|] == SEPARATOR;
    if path != "" && path' != "" && k == k' {
      SplitUnique(metric, path, metric', path');
    }
  }

  /** A metric instance is told apart from every other by its key, even when paths contain separators. */
  lemma EscalationKeyInjective(id: nat, metric: string, path: string, id': nat, metric': string, path': string)
    requires SepFree(metric) && SepFree(metric')
    ensures EscalationKey(id, metric, path) == EscalationKey(id', metric', path')
            <==> id == id' && metric == metric' && path == path'
  {
    OwnersDiffer(id, MetricBufferKey(metric, path), id', MetricBufferKey(metric', path'));
    BufferKeyInjective(metric, path, metric', path');
  }

  lemma DetectionKeyInjective(id: nat, species: string, episode: string, id': nat, species': string, episode': string)
    requires SepFree(species) && SepFree(species')
    ensures DetectionKey(id, species, episode) == DetectionKey(id', species', episode')
            <==> id == id' && species == species' && episode == episode'
  {
    if DetectionKey(id, species, episode) == DetectionKey(id', species', episode') {
      OwnersDiffer(id, species + [SEPARATOR] + episode, id', species' + [SEPARATOR] + episode');
      SplitUnique(species, episode, species', episode');
    }
  }

  /** A prefix that ends in the owner's separator only matches keys of that owner. */
  lemma PrefixOwner(id: nat, x: string, id': nat, y: string)
    ensures Owned(id, x) <= Owned(id', y) <==> id == id' && x <= y
  {
    var k, k' := Owned(id, x), Owned(id', y);
    if k <= k' {
      var rest := k'[|k|..];
      assert k' == Digits(id) + [SEPARATOR] + (x + rest);
      OwnersDiffer(id, x + rest, id', y);
    }
    if id == id' && x <= y {
      assert k' == k + y[|x|..];
    }
  }

  /** Pruning by prefix removes the entries of that rule and species and no others. */
  lemma PrefixExact(id: nat, species: string, id': nat, species': string, episode': string)
    requires SepFree(species) && SepFree(species')
    ensures DetectionKeyPrefix(id, species) <= DetectionKey(id', species', episode')
            <==> id == id' && species == species'
  {
    var x, y := species + [SEPARATOR], species' + [SEPARATOR] + episode';
    PrefixOwner(id, x, id', y);
    if x <= y {
      var rest := y[|x|..];
      assert y == species + [SEPARATOR] + rest;
      SplitUnique(species, rest, species', episode');
    }
    if species == species' {
      assert y == x + episode';
    }
  }

  /** Separators inside species names do break the encoding. */
  lemma {:induction false} SeparatorInSpeciesCollides()
    ensures DetectionKey(1, "a|b", "c") == DetectionKey(1, "a", "b|c")
  {
    assert "a|b" + [SEPARATOR] + "c" == "a" + [SEPARATOR] + "b|c";
  }
}
