/** An index that keeps, for each stripped name, a key of the greatest version; independent of how keys are read. */
module LatestIndex {

  /** A parse gives a value, an error, or stops the program. */
  datatype Parse<+T> = Parsed(value: T) | Invalid | Panic

  /** How a full name is read as a stripped name and a version. */
  type Reader<!F, N> = F -> Parse<(N, nat)>

  ghost predicate Names<F(!new), N(!new)>(read: Reader<F, N>, key: F, stripped: N)
  {
    read(key).Parsed? && read(key).value.0 == stripped
  }

  /** `full` has the greatest version among the keys with its stripped name. */
  ghost predicate IsLatest<F(!new), N(!new)>(read: Reader<F, N>, keys: set<F>, stripped: N, full: F)
  {
    && full in keys && Names(read, full, stripped)
    && forall key :: key in keys && Names(read, key, stripped) ==> read(key).value.1 <= read(full).value.1
  }

  /** The index has an entry for every stripped name and no other, and each points to a latest version. */
  ghost predicate IsIndex<F(!new), N(!new)>(read: Reader<F, N>, keys: set<F>, index: map<N, F>)
  {
    && (forall key :: key in keys && read(key).Parsed? ==> read(key).value.0 in index)
    && (forall stripped :: stripped in index ==> IsLatest(read, keys, stripped, index[stripped]))
  }

  /** The names in `latest`, with the versions remembered beside them, index the keys seen so far. */
  ghost predicate Remembers<F(!new), N(!new)>(read: Reader<F, N>, keys: set<F>, latest: map<N, (F, nat)>)
  {
    && (forall key :: key in keys && read(key).Parsed? ==> read(key).value.0 in latest)
    && (forall stripped :: stripped in latest ==> IsLatest(read, keys, stripped, latest[stripped].0)
                                                  && read(latest[stripped].0).value.1 == latest[stripped].1)
  }

  ghost predicate Panics<F(!new), N(!new)>(read: Reader<F, N>, keys: set<F>)
  {
    exists key :: key in keys && read(key).Panic?
  }

  /** First pass: the latest version of each name, whatever order the keys come in. */
  method CollectLatest<F(!new), N(==, !new), Key>(source: map<F, Key>, read: Reader<F, N>) returns (panicked: bool, latest: map<N, (F, nat)>)
    ensures panicked <==> Panics(read, source.Keys)
    ensures !panicked ==> Remembers(read, source.Keys, latest)
  {
    latest := map[];
    var remaining := source.Keys;
    ghost var seen: set<F> := {};
    while remaining != {}
      invariant seen + remaining == source.Keys && seen !! remaining
      invariant !Panics(read, seen)
      invariant Remembers(read, seen, latest)
      decreases remaining
    {
      var fullName :| fullName in remaining;
      var parsed := read(fullName);
      if parsed.Panic? {
        return true, latest;
      }
      if parsed.Parsed? {
        var (name, version) := parsed.value;
        if name in latest {
          if latest[name].1 < version {
            latest := latest[name := (fullName, version)];
          }
        } else {
          latest := latest[name := (fullName, version)];
        }
      }
      seen, remaining := seen + {fullName}, remaining - {fullName};
    }
    assert seen == source.Keys;
    return false, latest;
  }

  /** Second pass: every entry is put into the destination, over what was there. */
  method InsertAll<F, N>(latest: map<N, (F, nat)>, dest: map<N, F>) returns (dest': map<N, F>)
    ensures dest'.Keys == dest.Keys + latest.Keys
    ensures forall name :: name in dest' ==> dest'[name] == if name in latest then latest[name].0 else dest[name]
  {
    dest' := dest;
    var remaining := latest.Keys;
    while remaining != {}
      invariant remaining <= latest.Keys
      invariant dest'.Keys == dest.Keys + (latest.Keys - remaining)
      invariant forall name :: name in latest && name !in remaining ==> dest'[name] == latest[name].0
      invariant forall name :: name in dest && (name !in latest || name in remaining) ==> dest'[name] == dest[name]
      decreases remaining
    {
      var name :| name in remaining;
      dest' := dest'[name := latest[name].0];
      remaining := remaining - {name};
    }
  }

  /** The destination after an index is put over it. */
  ghost predicate Reinserted<F(!new), N(!new)>(read: Reader<F, N>, keys: set<F>, dest: map<N, F>, dest': map<N, F>)
  {
    exists index :: IsIndex(read, keys, index) && dest' == dest + index
  }

  /** For every order of iteration: a panic if some key panics, otherwise an index of latest versions put over the destination. */
  method Reinsert<F(!new), N(!new), Key>(source: map<F, Key>, dest: map<N, F>, read: Reader<F, N>) returns (panicked: bool, dest': map<N, F>)
    ensures panicked <==> Panics(read, source.Keys)
    ensures panicked ==> dest' == dest
    ensures !panicked ==> Reinserted(read, source.Keys, dest, dest')
  {
    var latest: map<N, (F, nat)>;
    panicked, latest := CollectLatest(source, read);
    if panicked {
      return true, dest;
    }
    dest' := InsertAll(latest, dest);
    ghost var index := map name | name in latest :: latest[name].0;
    assert dest' == dest + index;
    assert IsIndex(read, source.Keys, index);
  }

  /** Into an empty destination: exactly the index. Otherwise names without a versioned key keep their entries. */
  lemma ReinsertedMeans<F(!new), N(!new)>(read: Reader<F, N>, keys: set<F>, dest: map<N, F>, dest': map<N, F>)
    requires Reinserted(read, keys, dest, dest')
    ensures dest == map[] ==> IsIndex(read, keys, dest')
    ensures forall key :: key in keys && read(key).Parsed? ==>
                            read(key).value.0 in dest' && IsLatest(read, keys, read(key).value.0, dest'[read(key).value.0])
    ensures forall name :: (forall key :: key in keys ==> !Names(read, key, name)) ==>
                             (name in dest' <==> name in dest) && (name in dest ==> dest'[name] == dest[name])
  {
    var index :| IsIndex(read, keys, index) && dest' == dest + index;
    if dest == map[] { assert dest' == index; }
    forall name | name in index ensures exists key :: key in keys && Names(read, key, name) {
      assert IsLatest(read, keys, name, index[name]);
    }
  }

  /** Two indexes of the same keys agree on names and on versions, so the order of iteration does not matter. */
  lemma IndexIsUnique<F(!new), N(!new)>(read: Reader<F, N>, keys: set<F>, index: map<N, F>, index': map<N, F>)
    requires IsIndex(read, keys, index) && IsIndex(read, keys, index')
    ensures index.Keys == index'.Keys
    ensures forall name :: name in index ==> read(index[name]).value.1 == read(index'[name]).value.1
  {
    forall name | name in index ensures name in index' {
      assert IsLatest(read, keys, name, index[name]);
    }
    forall name | name in index' ensures name in index {
      assert IsLatest(read, keys, name, index'[name]);
    }
    forall name | name in index ensures read(index[name]).value.1 == read(index'[name]).value.1 {
      assert IsLatest(read, keys, name, index[name]) && IsLatest(read, keys, name, index'[name]);
    }
  }
}
