/** Lists of file records as the frontend holds them, and the removal by
    `_id` that the viewer and both file lists perform with
    `list.filter(f => f._id !== id)`. */
module RecordLists {
  import opened FileModel

  /** Some entry of `s` carries the id. */
  predicate HasId(s: seq<FileRecord>, id: Id)
  {
    exists i :: 0 <= i < |s| && s[i].id == id
  }

  /** No two entries of `s` carry the same id. */
  predicate DistinctIds(s: seq<FileRecord>)
  {
    forall i, j :: 0 <= i < j < |s| ==> s[i].id != s[j].id
  }

  /** The entries of `s` whose id differs from `id`, in their order. */
  function Without(s: seq<FileRecord>, id: Id): (r: seq<FileRecord>)
    ensures |r| <= |s|
    ensures forall x :: x in r <==> x in s && x.id != id
    ensures !HasId(r, id)
    decreases |s|
  {
    if s == [] then []
    else if s[0].id == id then Without(s[1..], id)
    else [s[0]] + Without(s[1..], id)
  }

  /** Filtering distributes over concatenation, so the kept entries keep
      their relative order. */
  lemma {:induction false} WithoutConcat(a: seq<FileRecord>, b: seq<FileRecord>, id: Id)
    ensures Without(a + b, id) == Without(a, id) + Without(b, id)
    decreases |a|
  {
    if a == [] {
      assert a + b == b;
    } else {
      assert (a + b)[1..] == a[1..] + b;
      WithoutConcat(a[1..], b, id);
    }
  }

  /** Removing an id changes the list exactly when the id is present. */
  lemma {:induction false} WithoutUnchanged(s: seq<FileRecord>, id: Id)
    ensures Without(s, id) == s <==> !HasId(s, id)
    decreases |s|
  {
    if s != [] {
      WithoutUnchanged(s[1..], id);
      if s[0].id != id && !HasId(s[1..], id) {
        assert !HasId(s, id) by {
          forall i | 0 <= i < |s| ensures s[i].id != id {
            if i > 0 { assert s[i] == s[1..][i - 1]; }
          }
        }
      }
      if !HasId(s, id) {
        assert !HasId(s[1..], id) by {
          forall i | 0 <= i < |s[1..]| ensures s[1..][i].id != id {
            assert s[1..][i] == s[i + 1];
          }
        }
      }
    }
  }

  /** Removing the same id twice is the same as removing it once. */
  lemma WithoutIdempotent(s: seq<FileRecord>, id: Id)
    ensures Without(Without(s, id), id) == Without(s, id)
  {
    WithoutUnchanged(Without(s, id), id);
  }

  /** Removal keeps a list free of duplicate ids. */
  lemma {:induction false} WithoutKeepsDistinct(s: seq<FileRecord>, id: Id)
    requires DistinctIds(s)
    ensures DistinctIds(Without(s, id))
    decreases |s|
  {
    if s != [] {
      assert DistinctIds(s[1..]) by {
        forall i, j | 0 <= i < j < |s[1..]| ensures s[1..][i].id != s[1..][j].id {
          assert s[1..][i] == s[i + 1] && s[1..][j] == s[j + 1];
        }
      }
      WithoutKeepsDistinct(s[1..], id);
      if s[0].id != id {
        var rest := Without(s[1..], id);
        forall k | 0 <= k < |rest| ensures rest[k].id != s[0].id {
          assert rest[k] in s[1..];
          var m :| 0 <= m < |s[1..]| && s[1..][m] == rest[k];
          assert s[1..][m] == s[m + 1];
        }
        var r := [s[0]] + rest;
        forall i, j | 0 <= i < j < |r| ensures r[i].id != r[j].id {
          if i == 0 {
            assert r[j] == rest[j - 1];
          } else {
            assert r[i] == rest[i - 1] && r[j] == rest[j - 1];
          }
        }
      }
    }
  }
}
