/** The three relation tables Follow, Favorite and ShoppingCart all hold
    rows keyed by a pair (user, target): the follower and the followed
    author, or the user and the recipe. This module holds what they share:
    the existence query, the row deletion and the unique-pair invariant. */
module Links {
  import opened Seqs

  datatype Link = Link(user: nat, target: nat)

  /** `Model.objects.filter(user=u, <target>=x).exists()`: a scan of the table. */
  function Exists(t: seq<Link>, user: nat, target: nat): (r: bool)
    ensures r <==> Link(user, target) in t
  {
    t != [] && (t[0] == Link(user, target) || Exists(t[1..], user, target))
  }

  /** `Model.objects.filter(user=u, <target>=x).delete()`: every row equal to `l` goes. */
  function Remove(t: seq<Link>, l: Link): (r: seq<Link>)
    ensures l !in r
    ensures forall x :: x in r <==> x in t && x != l
    ensures NoDuplicates(t) ==> NoDuplicates(r)
  {
    FilterNoDuplicatesIf(t, (x: Link) => x != l);
    Filter(t, (x: Link) => x != l)
  }

  lemma FilterNoDuplicatesIf(t: seq<Link>, p: Link -> bool)
    ensures NoDuplicates(t) ==> NoDuplicates(Filter(t, p))
  {
    if NoDuplicates(t) {
      FilterNoDuplicates(t, p);
    }
  }

  /** In a table with unique pairs, removing a present row takes out exactly
      that row and keeps the others in their order. */
  lemma RemoveExactlyOne(t: seq<Link>, k: nat)
    requires NoDuplicates(t)
    requires k < |t|
    ensures Remove(t, t[k]) == t[..k] + t[k + 1..]
  {
    var l := t[k];
    var p := (x: Link) => x != l;
    var pre, post := t[..k], t[k + 1..];
    assert t == pre + ([l] + post);
    OnlyOnce(t, k);
    FilterAppend(pre, [l] + post, p);
    FilterAppend([l], post, p);
    FilterAll(pre, p);
    FilterAll(post, p);
  }

  lemma OnlyOnce(t: seq<Link>, k: nat)
    requires NoDuplicates(t)
    requires k < |t|
    ensures t[k] !in t[..k] && t[k] !in t[k + 1..]
  {
  }

  /** Removing an absent row leaves the table as it was. */
  lemma RemoveAbsent(t: seq<Link>, l: Link)
    requires l !in t
    ensures Remove(t, l) == t
  {
    FilterAll(t, (x: Link) => x != l);
  }

  /** Adding a fresh row and then removing it restores the table. */
  lemma RemoveAfterAdd(t: seq<Link>, l: Link)
    requires l !in t
    ensures Remove(t + [l], l) == t
  {
    var p := (x: Link) => x != l;
    FilterAppend(t, [l], p);
    FilterAll(t, p);
  }

  /** Appending a pair that is not yet there keeps the pairs unique. */
  lemma AddKeepsUnique(t: seq<Link>, l: Link)
    requires NoDuplicates(t) && l !in t
    ensures NoDuplicates(t + [l])
  {
    var r := t + [l];
    forall i, j | 0 <= i < j < |r| ensures r[i] != r[j] {
      if j == |t| {
        assert r[i] == t[i];
      } else {
        assert r[i] == t[i] && r[j] == t[j];
      }
    }
  }
}
