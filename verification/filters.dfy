/**
 * The attribute filters the mappers apply to an object's dictionary before
 * building a statement, and the `public` view of a model instance.
 */
module Filters {
  import opened Values

  /** The attributes whose name `keep` accepts, in dictionary order, values unchanged. */
  function Where(a: Attrs, keep: string -> bool): (r: Attrs)
    ensures |r| <= |a|
    ensures forall p :: p in r <==> p in a && keep(p.0)
    ensures UniqueNames(a) ==> UniqueNames(r)
    ensures forall n :: n in Names(r) <==> n in Names(a) && keep(n)
  {
    if |a| == 0 then []
    else
      var rest := Where(a[1..], keep);
      assert a == [a[0]] + a[1..];
      NamesCons(a[0], a[1..]);
      if keep(a[0].0) then
        NamesCons(a[0], rest);
        [a[0]] + rest
      else rest
  }

  /** The names of an attribute list with one attribute put in front. */
  lemma NamesCons(x: Attr, a: Attrs)
    ensures Names([x] + a) == [x.0] + Names(a)
    ensures UniqueNames([x] + a) <==> x.0 !in Names(a) && UniqueNames(a)
  {
    var b := [x] + a;
    if UniqueNames(b) {
      forall i, j | 0 <= i < j < |a| ensures a[i].0 != a[j].0 {
        assert b[i + 1] == a[i] && b[j + 1] == a[j];
      }
      forall k | 0 <= k < |a| ensures Names(a)[k] != x.0 {
        assert b[0] == x && b[k + 1] == a[k];
      }
    }
    if x.0 !in Names(a) && UniqueNames(a) {
      forall i, j | 0 <= i < j < |b| ensures b[i].0 != b[j].0 {
        if i == 0 {
          assert b[j].0 == Names(a)[j - 1];
        } else {
          assert b[i] == a[i - 1] && b[j] == a[j - 1];
        }
      }
    }
  }

  predicate IsPrefix(x: string, s: string) {
    |x| <= |s| && x == s[..|x|]
  }

  /** Python's `x in s` for two strings: `x` occurs in `s` as a contiguous run. */
  predicate IsSubstring(x: string, s: string)
    decreases |s|
  {
    IsPrefix(x, s) || (|s| > 0 && IsSubstring(x, s[1..]))
  }

  /**
   * `cut_attrs(obj, keys)`: the test is `name not in keys`; with a string
   * for `keys` that is a substring test.
   */
  function CutAttrs(a: Attrs, keys: string): Attrs {
    Where(a, n => !IsSubstring(n, keys))
  }

  /** `cut_attrs` decides attribute by attribute, front to back. */
  lemma CutAttrsCons(a: Attrs, keys: string)
    requires |a| > 0
    ensures CutAttrs(a, keys) == (if IsSubstring(a[0].0, keys) then [] else [a[0]]) + CutAttrs(a[1..], keys)
  {
  }

  /** With no name among the substrings of "id", `cut_attrs(obj, 'id')` keeps everything. */
  lemma {:induction false} CutIdKeepsOthers(a: Attrs)
    requires forall i :: 0 <= i < |a| ==> a[i].0 !in {"", "i", "d", "id"}
    ensures CutAttrs(a, "id") == a
  {
    if |a| > 0 {
      assert a == [a[0]] + a[1..];
      assert forall i :: 0 <= i < |a[1..]| ==> a[1..][i] == a[i + 1];
      CutIdKeepsOthers(a[1..]);
      SubstringsOfId(a[0].0);
      CutAttrsCons(a, "id");
    }
  }

  /** The filter in the older mappers: `k is not 'id'`, read as inequality. */
  function DropId(a: Attrs): Attrs {
    Where(a, n => n != "id")
  }

  /** The only strings `x in 'id'` accepts are the four substrings of "id". */
  lemma SubstringsOfId(x: string)
    ensures IsSubstring(x, "id") <==> x in {"", "i", "d", "id"}
  {
    assert "id"[1..] == "d";
    assert "d"[1..] == "";
    assert "id"[..0] == "" && "id"[..1] == "i" && "id"[..2] == "id";
    assert "d"[..0] == "" && "d"[..1] == "d";
    if IsSubstring(x, "id") {
      if !IsPrefix(x, "id") {
        assert IsSubstring(x, "d");
        if !IsPrefix(x, "d") {
          assert IsSubstring(x, "");
          assert IsPrefix(x, "");
        }
      }
    } else {
      assert !IsPrefix(x, "id") && !IsSubstring(x, "d");
      assert !IsPrefix(x, "d") && !IsSubstring(x, "");
    }
  }

  /**
   * `cut_attrs(obj, 'id')` drops exactly the attributes named "", "i", "d"
   * and "id", and keeps every other attribute with its value.
   */
  lemma CutIdDropsSubstrings(a: Attrs)
    ensures forall p :: p in CutAttrs(a, "id") <==> p in a && p.0 !in {"", "i", "d", "id"}
  {
    forall p | p in a
      ensures p in CutAttrs(a, "id") <==> p.0 !in {"", "i", "d", "id"}
    {
      SubstringsOfId(p.0);
    }
  }

  /**
   * The two filters differ only on names that are proper substrings of
   * "id": the exact filter keeps those, the substring filter drops them.
   */
  lemma CutIdVersusDropId(a: Attrs)
    ensures forall p :: p in CutAttrs(a, "id") ==> p in DropId(a)
    ensures CutAttrs(a, "id") == DropId(a) <==> forall p :: p in a ==> p.0 !in {"", "i", "d"}
  {
    CutIdDropsSubstrings(a);
    if forall p :: p in a ==> p.0 !in {"", "i", "d"} {
      SameFilter(a, n => !IsSubstring(n, "id"), n => n != "id");
    } else {
      var p :| p in a && p.0 in {"", "i", "d"};
      assert p in DropId(a) && p !in CutAttrs(a, "id");
    }
  }

  /** Two tests that agree on every name in `a` select the same attributes. */
  lemma {:induction false} SameFilter(a: Attrs, f: string -> bool, g: string -> bool)
    requires forall p :: p in a ==> (f(p.0) <==> g(p.0))
    ensures Where(a, f) == Where(a, g)
  {
    if |a| > 0 {
      assert forall p :: p in a[1..] ==> p in a;
      SameFilter(a[1..], f, g);
    }
  }

  /** Filtering twice with the same test is filtering once. */
  lemma {:induction false} WhereTwice(a: Attrs, keep: string -> bool)
    ensures Where(Where(a, keep), keep) == Where(a, keep)
  {
    if |a| > 0 {
      WhereTwice(a[1..], keep);
    }
  }

  /**
   * The public view has no private attribute left, so taking it again
   * changes nothing.
   */
  lemma PublicIsIdempotent(a: Attrs)
    requires Public(a).Ok?
    ensures Public(Public(a).value) == Public(a)
  {
    WhereTwice(a, n => |n| > 0 && n[0] != '_');
  }

  /**
   * `Model.public`: the attributes whose first character is not '_'. An
   * attribute with an empty name makes `name[0]` raise IndexError.
   */
  function Public(a: Attrs): (r: Result<Attrs>)
    ensures r.Err? <==> "" in Names(a)
    ensures r.Err? ==> r.error == IndexError
    ensures r.Ok? ==> forall p :: p in r.value <==> p in a && p.0[0] != '_'
  {
    if "" in Names(a) then Err(IndexError)
    else Ok(Where(a, n => |n| > 0 && n[0] != '_'))
  }
}
