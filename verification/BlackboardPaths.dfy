/** Where a key leads, said by the keys it becomes on the way up. */
module BlackboardPaths {
  import opened Wrappers
  import opened BlackboardModel

  /** A board without an entry for the key asks its parent: for the other key if there is a manual
      remapping, and else for the same one if it remaps by itself, unless that begins with an underscore. */
  predicate Asks<E>(board: Board<E>, key: string, up: string) {
    key !in board.storage &&
    if key in board.remap then up == board.remap[key] else board.auto && !("_" <= key) && up == key
  }

  /** Each board asks the next one, the last for `keys[|keys| - 1]`. */
  predicate Climbs<E>(chain: seq<Board<E>>, keys: seq<string>) {
    0 < |keys| <= |chain| && forall i | 0 <= i < |keys| - 1 :: Asks(chain[i], keys[i], keys[i + 1])
  }

  ghost predicate AsksOn<E>(board: Board<E>, key: string) {
    exists up :: Asks(board, key, up)
  }

  predicate Marked(key: string) {
    "@" <= key
  }

  predicate Unmarked(keys: seq<string>) {
    forall i | 0 <= i < |keys| :: !Marked(keys[i])
  }

  /** What the board at the end of the way does with its key. */
  predicate Has<E>(chain: seq<Board<E>>, keys: seq<string>)
    requires Climbs(chain, keys)
  {
    keys[|keys| - 1] in chain[|keys| - 1].storage
  }

  ghost predicate GoesOn<E>(chain: seq<Board<E>>, keys: seq<string>)
    requires Climbs(chain, keys)
  {
    AsksOn(chain[|keys| - 1], keys[|keys| - 1])
  }

  lemma AskedForTarget<E>(board: Board<E>, key: string)
    ensures forall up :: Asks(board, key, up) <==> key !in board.storage && Target(board, key) == Some(up)
    ensures AsksOn(board, key) <==> key !in board.storage && Target(board, key).Some?
    ensures Marked(key) <==> RootKey(key)
  {
    assert "_" <= key <==> PrivateKey(key);
    if key !in board.storage && Target(board, key).Some? {
      assert Asks(board, key, Target(board, key).value);
    }
  }

  lemma ClimbsOn<E>(chain: seq<Board<E>>, keys: seq<string>)
    requires Climbs(chain, keys) && |keys| > 1
    ensures Climbs(chain[1..], keys[1..]) && Asks(chain[0], keys[0], keys[1])
    ensures Has(chain, keys) == Has(chain[1..], keys[1..]) && GoesOn(chain, keys) == GoesOn(chain[1..], keys[1..])
    ensures Unmarked(keys) ==> Unmarked(keys[1..]) && !Marked(keys[0])
  {
    assert Asks(chain[0], keys[0], keys[1]);
    forall i | 0 <= i < |keys[1..]| - 1 ensures Asks(chain[1..][i], keys[1..][i], keys[1..][i + 1]) {
      assert Asks(chain[i + 1], keys[i + 1], keys[i + 2]);
    }
  }

  /** A creation ends where the way ends: at the entry, at a place for one, or at the root, which would have
      to ask a parent. */
  lemma {:induction false} PlaceIsEnd<E>(chain: seq<Board<E>>, keys: seq<string>)
    requires Climbs(chain, keys)
    ensures var level, p := |keys| - 1, PlaceOf(chain, keys[0]);
            && (Has(chain, keys) ==> p == Found(level, keys[level], chain[level].storage[keys[level]]))
            && (!Has(chain, keys) && !GoesOn(chain, keys) ==> p == Vacant(level, keys[level]))
            && (GoesOn(chain, keys) && |keys| == |chain| ==> p == NoParent)
    decreases |keys|
  {
    AskedForTarget(chain[0], keys[0]);
    if |keys| > 1 {
      ClimbsOn(chain, keys);
      PlaceIsEnd(chain[1..], keys[1..]);
    }
  }

  /** So does a lookup, as long as no key on the way is marked for the root. */
  lemma {:induction false} LookupIsEnd<E>(chain: seq<Board<E>>, keys: seq<string>)
    requires Climbs(chain, keys) && Unmarked(keys) && (GoesOn(chain, keys) ==> |keys| == |chain|)
    ensures var level := |keys| - 1;
            Lookup(chain, keys[0]) == if Has(chain, keys) then Some(chain[level].storage[keys[level]]) else None
    decreases |keys|
  {
    AskedForTarget(chain[0], keys[0]);
    if |keys| > 1 {
      ClimbsOn(chain, keys);
      LookupIsEnd(chain[1..], keys[1..]);
    } else {
      assert !Marked(keys[0]);
    }
  }

  /** The first key with a mark sends a lookup to the root, which drops all marks and asks nobody. */
  lemma {:induction false} MarkLeadsToRoot<E>(chain: seq<Board<E>>, keys: seq<string>, marks: string, plain: string)
    requires Climbs(chain, keys) && Unmarked(keys[..|keys| - 1]) && keys[|keys| - 1] == marks + plain
    requires marks != "" && (forall i | 0 <= i < |marks| :: marks[i] == '@') && !Marked(plain)
    ensures var root := chain[|chain| - 1];
            Lookup(chain, keys[0]) == if plain in root.storage then Some(root.storage[plain]) else None
    decreases |keys|, |marks|
  {
    AskedForTarget(chain[0], keys[0]);
    if |keys| > 1 {
      ClimbsOn(chain, keys);
      assert keys[1..][..|keys| - 2] == keys[..|keys| - 1][1..];
      assert !Marked(keys[..|keys| - 1][0]);
      MarkLeadsToRoot(chain[1..], keys[1..], marks, plain);
    } else {
      var root, key := [chain[|chain| - 1]], marks + plain;
      assert key[0] == '@' && key[1..] == marks[1..] + plain;
      if |marks| > 1 {
        MarkLeadsToRoot(root, [key[1..]], marks[1..], plain);
      } else {
        assert key[1..] == plain;
        AskedForTarget(root[0], plain);
      }
    }
  }

  /** A set goes the way of its key, from the root if that is marked. */
  lemma SetGoesTheWay<E>(chain: seq<Board<E>>, keys: seq<string>)
    requires Climbs(chain, keys) && !Marked(keys[0])
    ensures SetPlace(chain, keys[0]) == PlaceOf(chain, keys[0])
  {
    AskedForTarget(chain[0], keys[0]);
    assert chain[0..] == chain;
  }

  lemma {:induction false} MarkedSetIsAtRoot<E>(chain: seq<Board<E>>, marks: string, plain: string)
    requires chain != [] && marks != "" && (forall i | 0 <= i < |marks| :: marks[i] == '@') && !Marked(plain)
    ensures var root := chain[|chain| - 1];
            && (plain in root.storage ==>
                  SetPlace(chain, marks + plain) == Found(|chain| - 1, plain, root.storage[plain]))
            && (plain !in root.storage ==>
                  SetPlace(chain, marks + plain) ==
                  if AsksOn(root, plain) then NoParent else Vacant(|chain| - 1, plain))
  {
    OwnerIsRoot(chain, marks, plain);
    AskedForTarget(chain[|chain| - 1], plain);
    assert chain[|chain| - 1..] == [chain[|chain| - 1]];
  }

  lemma {:induction false} OwnerIsRoot<E>(chain: seq<Board<E>>, marks: string, plain: string)
    requires chain != [] && (forall i | 0 <= i < |marks| :: marks[i] == '@') && !Marked(plain)
    ensures Owner(chain, marks + plain).1 == plain && (marks != "" ==> Owner(chain, marks + plain).0 == |chain| - 1)
    decreases |marks|
  {
    AskedForTarget(chain[0], plain);
    if marks == "" {
      assert marks + plain == plain;
    } else {
      assert (marks + plain)[0] == '@' && (marks + plain)[1..] == marks[1..] + plain;
      OwnerIsRoot(chain, marks[1..], plain);
    }
  }

  /** Every key has its way, up to an entry, to a board that asks nobody, or to the root. */
  lemma {:induction false} WayExists<E>(chain: seq<Board<E>>, key: string) returns (keys: seq<string>)
    requires chain != []
    ensures Climbs(chain, keys) && keys[0] == key && (GoesOn(chain, keys) ==> |keys| == |chain|)
    decreases |chain|
  {
    AskedForTarget(chain[0], key);
    keys := [key];
    if |chain| > 1 && AsksOn(chain[0], key) {
      var up :| Asks(chain[0], key, up);
      var more := WayExists(chain[1..], up);
      keys := [key] + more;
      forall i | 0 <= i < |keys| - 1 ensures Asks(chain[i], keys[i], keys[i + 1]) {
        if i > 0 {
          assert Asks(chain[1..][i - 1], more[i - 1], more[i]);
        }
      }
      ClimbsOn(chain, keys);
      assert keys[1..] == more;
    }
  }
}
