/** The home page (`HomePage`): the events sorted by date and split at the
    current time into upcoming and past ones; a tab chooses which is shown. */
module Home {
  import opened Types
  import opened Seqs
  import opened Sorting

  function DateKey(): Drop -> int
  {
    (d: Drop) => d.date
  }

  /** `drop.date >= now`. */
  function IsUpcoming(now: int): Drop -> bool
  {
    (d: Drop) => d.date >= now
  }

  /** `drop.date < now`. */
  function IsPast(now: int): Drop -> bool
  {
    (d: Drop) => d.date < now
  }

  /** `[...drops].sort((a, b) => a.date - b.date)`: a reordering of the events
      with dates non-decreasing. */
  function SortedDrops(drops: seq<Drop>): (r: seq<Drop>)
    ensures SortedBy(r, DateKey())
    ensures multiset(r) == multiset(drops)
    ensures forall d :: d in r <==> d in drops
  {
    var r := SortBy(drops, DateKey());
    assert forall d :: d in r <==> d in drops by {
      forall d ensures d in r <==> d in drops {
        assert d in r <==> d in multiset(r);
        assert d in drops <==> d in multiset(drops);
      }
    }
    r
  }

  /** The events still to come, soonest first. */
  function Upcoming(drops: seq<Drop>, now: int): (r: seq<Drop>)
    ensures forall k :: 0 <= k < |r| ==> r[k].date >= now
    ensures forall d :: d in r <==> d in drops && d.date >= now
  {
    FilterMembers(SortedDrops(drops), IsUpcoming(now));
    Filter(SortedDrops(drops), IsUpcoming(now))
  }

  /** The events already started, earliest first. */
  function Past(drops: seq<Drop>, now: int): (r: seq<Drop>)
    ensures forall k :: 0 <= k < |r| ==> r[k].date < now
    ensures forall d :: d in r <==> d in drops && d.date < now
  {
    FilterMembers(SortedDrops(drops), IsPast(now));
    Filter(SortedDrops(drops), IsPast(now))
  }

  /** Every event lands in exactly one of the two lists. */
  lemma PartitionSizes(drops: seq<Drop>, now: int)
    ensures |Upcoming(drops, now)| + |Past(drops, now)| == |drops|
  {
    FilterSplitLength(SortedDrops(drops), IsUpcoming(now), IsPast(now));
  }

  /** A filter of a date-ordered list is date-ordered. */
  lemma {:induction false} FilterKeepsSorted(s: seq<Drop>, p: Drop -> bool)
    requires SortedBy(s, DateKey())
    ensures SortedBy(Filter(s, p), DateKey())
  {
    if s != [] {
      FilterKeepsSorted(s[1..], p);
      var rest := Filter(s[1..], p);
      FilterMembers(s[1..], p);
      assert forall k :: 0 <= k < |rest| ==> s[0].date <= rest[k].date by {
        forall k | 0 <= k < |rest| ensures s[0].date <= rest[k].date {
          assert rest[k] in s[1..];
        }
      }
    }
  }

  /** In a date-ordered list the past events come first: the past list
      followed by the upcoming list is the sorted list itself. */
  lemma PastThenUpcoming(s: seq<Drop>, now: int)
    requires SortedBy(s, DateKey())
    ensures Filter(s, IsPast(now)) + Filter(s, IsUpcoming(now)) == s
  {
    assert forall i, j :: 0 <= i < j < |s| && IsUpcoming(now)(s[i]) ==> !IsPast(now)(s[j]) by {
      forall i, j | 0 <= i < j < |s| && IsUpcoming(now)(s[i]) ensures !IsPast(now)(s[j]) {
        assert DateKey()(s[i]) <= DateKey()(s[j]);
      }
    }
    FilterSplitConcat(s, IsPast(now), IsUpcoming(now));
  }

  /** Both lists are ordered by date, and together, past then upcoming, they
      are exactly the sorted events. */
  lemma PartitionOrdered(drops: seq<Drop>, now: int)
    ensures SortedBy(Upcoming(drops, now), DateKey()) && SortedBy(Past(drops, now), DateKey())
    ensures Past(drops, now) + Upcoming(drops, now) == SortedDrops(drops)
  {
    FilterKeepsSorted(SortedDrops(drops), IsUpcoming(now));
    FilterKeepsSorted(SortedDrops(drops), IsPast(now));
    PastThenUpcoming(SortedDrops(drops), now);
  }

  /** The two tabs of the home page; `'home'` is the default. */
  datatype Tab = HomeTab | PastTab

  /** `dropsToDisplay`: upcoming events on the home tab, past ones otherwise. */
  function DropsToDisplay(drops: seq<Drop>, now: int, tab: Tab): (r: seq<Drop>)
    ensures tab == HomeTab ==> r == Upcoming(drops, now)
    ensures tab == PastTab ==> r == Past(drops, now)
    ensures forall d :: d in r <==> d in drops && (d.date >= now <==> tab == HomeTab)
  {
    if tab == HomeTab then Upcoming(drops, now) else Past(drops, now)
  }
}
