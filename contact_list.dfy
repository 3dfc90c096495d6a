/** The display order of the contact list (src/components/ContactList.tsx):
    favourites first, then by name, computed on a copy of the list.

    `collate` stands for `String.prototype.localeCompare`; results that depend on
    it being a sensible ordering require `IsCollation(collate)`. */
module ContactList {
  import opened Types
  import opened Seqs
  import opened Text

  /** The comparator passed to `sort`: negative when `a` goes first. */
  function Compare(collate: (string, string) -> int, a: Contact, b: Contact): (r: int)
    ensures IsFavorite(a) && !IsFavorite(b) ==> r < 0
    ensures !IsFavorite(a) && IsFavorite(b) ==> r > 0
    ensures IsFavorite(a) == IsFavorite(b) ==> r == collate(a.name, b.name)
  {
    if IsFavorite(a) && !IsFavorite(b) then -1
    else if !IsFavorite(a) && IsFavorite(b) then 1
    else collate(a.name, b.name)
  }

  /** `a` may be placed before `b`. */
  predicate NotAfter(collate: (string, string) -> int, a: Contact, b: Contact)
  {
    Compare(collate, a, b) <= 0
  }

  /** The comparator is consistent whenever the name collation is: its sign is
      antisymmetric, and "not after" is total and transitive. */
  lemma CompareConsistent(collate: (string, string) -> int, a: Contact, b: Contact, c: Contact)
    requires IsCollation(collate)
    ensures Compare(collate, a, b) < 0 <==> Compare(collate, b, a) > 0
    ensures NotAfter(collate, a, b) || NotAfter(collate, b, a)
    ensures NotAfter(collate, a, a) && Compare(collate, a, a) == 0
    ensures NotAfter(collate, a, b) && NotAfter(collate, b, c) ==> NotAfter(collate, a, c)
  {
    assert collate(a.name, b.name) < 0 <==> collate(b.name, a.name) > 0;
    assert collate(a.name, a.name) < 0 <==> collate(a.name, a.name) > 0;
    if NotAfter(collate, a, b) && NotAfter(collate, b, c) && IsFavorite(a) == IsFavorite(c) {
      assert collate(a.name, b.name) <= 0 && collate(b.name, c.name) <= 0;
    }
  }

  /** Places `x` in front of the first element it need not follow. */
  function Insert(collate: (string, string) -> int, x: Contact, s: seq<Contact>): (r: seq<Contact>)
    ensures |r| == |s| + 1
    ensures multiset(r) == multiset(s) + multiset{x}
  {
    if s == [] then [x]
    else if NotAfter(collate, x, s[0]) then [x] + s
    else
      assert s == [s[0]] + s[1..];
      [s[0]] + Insert(collate, x, s[1..])
  }

  /** `[...contacts].sort(comparator)`: a stable sort of a copy, here an insertion sort. */
  function SortForDisplay(collate: (string, string) -> int, cs: seq<Contact>): (r: seq<Contact>)
    ensures |r| == |cs|
    ensures multiset(r) == multiset(cs)
  {
    if cs == [] then []
    else
      assert cs == [cs[0]] + cs[1..];
      Insert(collate, cs[0], SortForDisplay(collate, cs[1..]))
  }

  ghost predicate Sorted(collate: (string, string) -> int, s: seq<Contact>)
  {
    forall i, j :: 0 <= i < j < |s| ==> NotAfter(collate, s[i], s[j])
  }

  lemma {:induction false} InsertSorted(collate: (string, string) -> int, x: Contact, s: seq<Contact>)
    requires IsCollation(collate) && Sorted(collate, s)
    ensures Sorted(collate, Insert(collate, x, s))
  {
    if s != [] {
      var r := Insert(collate, x, s);
      if NotAfter(collate, x, s[0]) {
        forall j | 1 <= j < |r| ensures NotAfter(collate, x, r[j]) {
          CompareConsistent(collate, x, s[0], r[j]);
        }
      } else {
        CompareConsistent(collate, x, s[0], x);
        var t := Insert(collate, x, s[1..]);
        InsertSorted(collate, x, s[1..]);
        assert r == [s[0]] + t;
        forall j | 0 <= j < |t| ensures NotAfter(collate, s[0], t[j]) {
          assert t[j] in multiset(t);
          assert t[j] == x || t[j] in s[1..];
        }
      }
    }
  }

  lemma {:induction false} SortSorted(collate: (string, string) -> int, cs: seq<Contact>)
    requires IsCollation(collate)
    ensures Sorted(collate, SortForDisplay(collate, cs))
  {
    if cs != [] {
      SortSorted(collate, cs[1..]);
      InsertSorted(collate, cs[0], SortForDisplay(collate, cs[1..]));
    }
  }

  /** No entry that is not a favourite is shown before a favourite; an absent
      flag counts as not a favourite. */
  lemma SortFavoritesFirst(collate: (string, string) -> int, cs: seq<Contact>)
    requires IsCollation(collate)
    ensures var r := SortForDisplay(collate, cs);
            forall i, j :: 0 <= i < j < |r| && IsFavorite(r[j]) ==> IsFavorite(r[i])
  {
    SortSorted(collate, cs);
  }

  /** Among entries of the same favourite status, names are in collation order. */
  lemma SortNamesOrdered(collate: (string, string) -> int, cs: seq<Contact>)
    requires IsCollation(collate)
    ensures var r := SortForDisplay(collate, cs);
            forall i, j :: 0 <= i < j < |r| && IsFavorite(r[i]) == IsFavorite(r[j]) ==>
              collate(r[i].name, r[j].name) <= 0
  {
    SortSorted(collate, cs);
  }

  /** The entries of `s` that compare equal to `k`, in their order in `s`. */
  function EqualTo(collate: (string, string) -> int, s: seq<Contact>, k: Contact): seq<Contact>
  {
    if s == [] then []
    else (if Compare(collate, s[0], k) == 0 then [s[0]] else []) + EqualTo(collate, s[1..], k)
  }

  lemma {:induction false} EqualToMembers(collate: (string, string) -> int, s: seq<Contact>, k: Contact, x: Contact)
    requires x in EqualTo(collate, s, k)
    ensures x in s && Compare(collate, x, k) == 0
  {
    if s != [] && !(x == s[0] && Compare(collate, s[0], k) == 0) {
      EqualToMembers(collate, s[1..], k, x);
    }
  }

  lemma {:induction false} EqualToCons(collate: (string, string) -> int, x: Contact, s: seq<Contact>, k: Contact)
    ensures EqualTo(collate, [x] + s, k)
         == (if Compare(collate, x, k) == 0 then [x] else []) + EqualTo(collate, s, k)
  {
    assert ([x] + s)[0] == x && ([x] + s)[1..] == s;
  }

  /** Two entries that compare equal to the same `k` may be placed either way round. */
  lemma EqualToSameClass(collate: (string, string) -> int, x: Contact, y: Contact, k: Contact)
    requires IsCollation(collate)
    requires Compare(collate, x, k) == 0 && Compare(collate, y, k) == 0
    ensures NotAfter(collate, x, y)
  {
    CompareConsistent(collate, y, k, x);
    CompareConsistent(collate, x, k, y);
  }

  lemma {:induction false} InsertEqualTo(collate: (string, string) -> int, x: Contact, s: seq<Contact>, k: Contact)
    requires IsCollation(collate)
    ensures EqualTo(collate, Insert(collate, x, s), k)
         == (if Compare(collate, x, k) == 0 then [x] else []) + EqualTo(collate, s, k)
  {
    if s == [] {
      EqualToCons(collate, x, s, k);
    } else if NotAfter(collate, x, s[0]) {
      EqualToCons(collate, x, s, k);
    } else {
      assert s == [s[0]] + s[1..];
      EqualToCons(collate, s[0], Insert(collate, x, s[1..]), k);
      EqualToCons(collate, s[0], s[1..], k);
      InsertEqualTo(collate, x, s[1..], k);
      if Compare(collate, x, k) == 0 && Compare(collate, s[0], k) == 0 {
        EqualToSameClass(collate, x, s[0], k);
        assert false;
      }
    }
  }

  /** Stability: the entries that compare equal to any `k` appear in the
      display order exactly as they appear in the input. */
  lemma {:induction false} SortStable(collate: (string, string) -> int, cs: seq<Contact>, k: Contact)
    requires IsCollation(collate)
    ensures EqualTo(collate, SortForDisplay(collate, cs), k) == EqualTo(collate, cs, k)
  {
    if cs != [] {
      assert cs == [cs[0]] + cs[1..];
      SortStable(collate, cs[1..], k);
      InsertEqualTo(collate, cs[0], SortForDisplay(collate, cs[1..]), k);
      EqualToCons(collate, cs[0], cs[1..], k);
    }
  }

  lemma EqualToHead(collate: (string, string) -> int, s: seq<Contact>)
    requires IsCollation(collate) && s != []
    ensures EqualTo(collate, s, s[0]) != []
  {
    CompareConsistent(collate, s[0], s[0], s[0]);
  }

  /** Two sorted lists whose entries compare equal to every `k` in the same
      order are the same list. */
  lemma {:induction false} SortedEqualToDetermines(collate: (string, string) -> int, r: seq<Contact>, s: seq<Contact>)
    requires IsCollation(collate) && Sorted(collate, r) && Sorted(collate, s)
    requires forall k :: EqualTo(collate, r, k) == EqualTo(collate, s, k)
    ensures r == s
    decreases |r| + |s|
  {
    if r == [] && s != [] {
      EqualToHead(collate, s);
      assert false;
    } else if r != [] && s == [] {
      EqualToHead(collate, r);
      assert false;
    } else if r != [] {
      var a, b := r[0], s[0];
      CompareConsistent(collate, a, a, a);
      CompareConsistent(collate, b, b, b);
      assert r == [a] + r[1..] && s == [b] + s[1..];
      // b is not after a: a compares equal to some entry of s, which b precedes
      assert a in EqualTo(collate, r, a);
      EqualToMembers(collate, s, a, a);
      var j :| 0 <= j < |s| && s[j] == a;
      assert NotAfter(collate, b, a) by {
        if j > 0 { CompareConsistent(collate, b, s[j], a); }
      }
      // a is not after b, symmetrically
      assert b in EqualTo(collate, s, b);
      EqualToMembers(collate, r, b, b);
      var i :| 0 <= i < |r| && r[i] == b;
      assert NotAfter(collate, a, b) by {
        if i > 0 { CompareConsistent(collate, a, r[i], b); }
      }
      CompareConsistent(collate, a, b, b);
      assert Compare(collate, b, a) == 0;
      EqualToCons(collate, a, r[1..], a);
      EqualToCons(collate, b, s[1..], a);
      assert EqualTo(collate, r, a)[0] == a && EqualTo(collate, s, a)[0] == b;
      forall k ensures EqualTo(collate, r[1..], k) == EqualTo(collate, s[1..], k) {
        EqualToCons(collate, a, r[1..], k);
        EqualToCons(collate, b, s[1..], k);
        var head := if Compare(collate, a, k) == 0 then [a] else [];
        assert EqualTo(collate, r[1..], k) == (head + EqualTo(collate, r[1..], k))[|head|..];
        assert EqualTo(collate, s[1..], k) == (head + EqualTo(collate, s[1..], k))[|head|..];
      }
      SortedEqualToDetermines(collate, r[1..], s[1..]);
    }
  }

  /** Any sorted, stable rearrangement of `cs` is the display order: the result
      does not depend on which stable sorting algorithm the engine uses. */
  lemma SortUnique(collate: (string, string) -> int, cs: seq<Contact>, r: seq<Contact>)
    requires IsCollation(collate) && Sorted(collate, r)
    requires forall k :: EqualTo(collate, r, k) == EqualTo(collate, cs, k)
    ensures r == SortForDisplay(collate, cs)
  {
    SortSorted(collate, cs);
    forall k ensures EqualTo(collate, r, k) == EqualTo(collate, SortForDisplay(collate, cs), k) {
      SortStable(collate, cs, k);
    }
    SortedEqualToDetermines(collate, r, SortForDisplay(collate, cs));
  }

  /** What the list component shows: the empty state, or the cards in display order. */
  datatype View = EmptyState | Cards(shown: seq<Contact>)

  /** An empty list takes the empty-state branch before any sorting; otherwise the
      cards are a rearrangement of the input. The input itself is a value and
      cannot be reordered by the sort. */
  function Render(collate: (string, string) -> int, cs: seq<Contact>): (v: View)
    ensures v.EmptyState? <==> |cs| == 0
    ensures v.Cards? ==> multiset(v.shown) == multiset(cs) && v.shown == SortForDisplay(collate, cs)
  {
    if |cs| == 0 then EmptyState else Cards(SortForDisplay(collate, cs))
  }
}
