/** The contact records of the phonebook, the seed list it starts from, and
    the two pure computations over the list: removal by id and the
    case-insensitive filtered view. */
module Contacts {
  import opened Sequences
  import opened Text

  /** One phonebook entry `{id, name, number}`. */
  datatype Contact = Contact(id: string, name: string, number: string)

  /** The list used when nothing has been stored yet. */
  const Seed: seq<Contact> := [
    Contact("id-1", "Rosie Simpson", "459-12-56"),
    Contact("id-2", "Hermione Kline", "443-89-12"),
    Contact("id-3", "Eden Clements", "645-17-79"),
    Contact("id-4", "Annie Copeland", "227-91-26")
  ]

  /** The list left after deleting `id`: every contact carrying that id is
      dropped, the others keep their relative order. */
  function WithoutId(cs: seq<Contact>, id: string): (r: seq<Contact>)
    ensures |r| <= |cs|
    ensures forall c :: c in r <==> c in cs && c.id != id
  {
    Keep(cs, (c: Contact) => c.id != id)
  }

  /** Number of contacts that carry `id`. */
  function CountId(cs: seq<Contact>, id: string): (n: nat)
    ensures n <= |cs|
    ensures n == 0 <==> forall c :: c in cs ==> c.id != id
  {
    Count(cs, (c: Contact) => c.id == id)
  }

  /** Deletion keeps the surviving contacts in their original order. */
  lemma WithoutIdIsSubsequence(cs: seq<Contact>, id: string)
    ensures IsSubsequence(WithoutId(cs, id), cs)
  {
    KeepIsSubsequence(cs, (c: Contact) => c.id != id);
  }

  /** Deletion removes one element per contact that carries the id. */
  lemma {:induction false} WithoutIdLength(cs: seq<Contact>, id: string)
    ensures |WithoutId(cs, id)| + CountId(cs, id) == |cs|
  {
    if cs != [] {
      WithoutIdLength(cs[1..], id);
    }
  }

  /** Deleting an id that no contact carries leaves the list unchanged. */
  lemma WithoutAbsentId(cs: seq<Contact>, id: string)
    requires forall c :: c in cs ==> c.id != id
    ensures WithoutId(cs, id) == cs
  {
    KeepAll(cs, (c: Contact) => c.id != id);
  }

  /** Deleting an id that exactly one contact carries shortens the list by one. */
  lemma WithoutUniqueId(cs: seq<Contact>, id: string)
    requires CountId(cs, id) == 1
    ensures |WithoutId(cs, id)| == |cs| - 1
  {
    WithoutIdLength(cs, id);
  }

  /** Deletion from a list with one more contact is deletion from the old
      list, followed by the new contact unless it carries the id. */
  lemma WithoutIdAppend(cs: seq<Contact>, c: Contact, id: string)
    ensures WithoutId(cs + [c], id) == WithoutId(cs, id) + (if c.id != id then [c] else [])
  {
    KeepAppend(cs, [c], (c: Contact) => c.id != id);
    KeepSingle(c, (c: Contact) => c.id != id);
  }

  /** The test the filtered view applies to each contact: its lower-cased
      name includes the lower-cased filter. */
  function Matches(c: Contact, filter: string): (r: bool)
    ensures r <==> exists i: nat :: OccursAt(Lower(c.name), Lower(filter), i)
    ensures filter == [] ==> r
  {
    IncludesIff(Lower(c.name), Lower(filter));
    Includes(Lower(c.name), Lower(filter))
  }

  /** The filter callback as a predicate value: it accepts a contact iff
      the folded filter occurs at some position of the folded name. */
  function Matching(filter: string): (p: Contact -> bool)
    ensures forall c: Contact :: p(c) <==> exists i: nat :: OccursAt(Lower(c.name), Lower(filter), i)
  {
    (c: Contact) => Matches(c, filter)
  }

  /** The visible contacts for a filter text: one entry per matching entry
      of the list, so duplicate records are all shown. */
  function Filtered(cs: seq<Contact>, filter: string): (r: seq<Contact>)
    ensures |r| <= |cs|
    ensures forall c :: c in r <==> c in cs && Matches(c, filter)
    ensures |r| == Count(cs, Matching(filter))
  {
    KeepLength(cs, Matching(filter));
    Keep(cs, Matching(filter))
  }

  /** The view never reorders contacts: it is a subsequence of the list. */
  lemma FilteredIsSubsequence(cs: seq<Contact>, filter: string)
    ensures IsSubsequence(Filtered(cs, filter), cs)
  {
    KeepIsSubsequence(cs, Matching(filter));
  }

  /** A contact is shown iff some position of its lower-cased name starts
      an occurrence of the lower-cased filter. */
  lemma FilteredMembership(cs: seq<Contact>, filter: string, c: Contact)
    ensures c in Filtered(cs, filter) <==>
      c in cs && exists i: nat :: OccursAt(Lower(c.name), Lower(filter), i)
  {
  }

  /** The empty filter shows every contact. */
  lemma FilteredEmpty(cs: seq<Contact>)
    ensures Filtered(cs, "") == cs
  {
    KeepAll(cs, Matching(""));
  }

  /** Filtering the filtered view again changes nothing. */
  lemma FilteredIdempotent(cs: seq<Contact>, filter: string)
    ensures Filtered(Filtered(cs, filter), filter) == Filtered(cs, filter)
  {
    KeepIdempotent(cs, Matching(filter));
  }

  /** The case of the filter text does not matter. */
  lemma FilteredIgnoresFilterCase(cs: seq<Contact>, filter: string)
    ensures Filtered(cs, Lower(filter)) == Filtered(cs, filter)
  {
    LowerIdempotent(filter);
    KeepCongruent(cs, Matching(Lower(filter)), Matching(filter));
  }

  /** Two filter texts that differ only in the case of their letters show
      the same contacts. */
  lemma FilteredCaseInsensitive(cs: seq<Contact>, f: string, g: string)
    requires SameUpToCase(f, g)
    ensures Filtered(cs, f) == Filtered(cs, g)
  {
    LowerSameUpToCase(f, g);
    KeepCongruent(cs, Matching(f), Matching(g));
  }

  /** A contact whose name differs only in case matches the same filters. */
  lemma MatchesIgnoresNameCase(c: Contact, d: Contact, filter: string)
    requires SameUpToCase(c.name, d.name)
    ensures Matches(c, filter) == Matches(d, filter)
  {
    LowerSameUpToCase(c.name, d.name);
  }

  /** The view of a list with one more contact is the old view, followed by
      the new contact when it matches. */
  lemma FilteredAppend(cs: seq<Contact>, c: Contact, filter: string)
    ensures Filtered(cs + [c], filter) ==
      Filtered(cs, filter) + (if Matches(c, filter) then [c] else [])
  {
    KeepAppend(cs, [c], Matching(filter));
    KeepSingle(c, Matching(filter));
  }

  /** The seed ids are distinct. */
  lemma SeedIdsDistinct()
    ensures forall i, j :: 0 <= i < j < |Seed| ==> Seed[i].id != Seed[j].id
  {
  }

  /** A contact whose name lacks, in either case, the letter the folded
      filter starts with does not match that filter. */
  lemma MissesLetter(c: Contact, filter: string, ch: char)
    requires IsLowerLetter(ch)
    requires Lower(filter) != [] && Lower(filter)[0] == ch
    requires ch !in c.name && UpperOf(ch) !in c.name
    ensures !Matches(c, filter)
  {
    LowerLacks(c.name, ch);
    IncludesNeedsHead(Lower(c.name), Lower(filter));
  }

  /** A filter whose folded first letter appears in no name, in either
      case, shows nothing. */
  lemma FilteredMissingLetter(cs: seq<Contact>, filter: string, ch: char)
    requires IsLowerLetter(ch)
    requires Lower(filter) != [] && Lower(filter)[0] == ch
    requires forall k :: 0 <= k < |cs| ==> ch !in cs[k].name && UpperOf(ch) !in cs[k].name
    ensures Filtered(cs, filter) == []
  {
    forall c | c in cs ensures !Matches(c, filter) {
      var k :| 0 <= k < |cs| && cs[k] == c;
      MissesLetter(c, filter, ch);
    }
    KeepLength(cs, Matching(filter));
  }

  /** Filtering the seed by "ros" shows Rosie Simpson. */
  lemma SeedFilterRos()
    ensures Seed[0] in Filtered(Seed, "ros")
  {
    var name := Lower(Seed[0].name);
    assert name[0] == 'r' && name[1] == 'o' && name[2] == 's';
    assert Lower("ros") == "ros";
    assert "ros" <= name;
  }

  /** The four seed names. */
  lemma SeedNames()
    ensures Seed[0].name == "Rosie Simpson" && Seed[1].name == "Hermione Kline"
    ensures Seed[2].name == "Eden Clements" && Seed[3].name == "Annie Copeland"
  {
  }

  /** No seed name contains an 'x' or an 'X'. */
  lemma SeedNamesLackX()
    ensures 'x' !in "Rosie Simpson" && 'X' !in "Rosie Simpson"
    ensures 'x' !in "Hermione Kline" && 'X' !in "Hermione Kline"
    ensures 'x' !in "Eden Clements" && 'X' !in "Eden Clements"
    ensures 'x' !in "Annie Copeland" && 'X' !in "Annie Copeland"
  {
  }

  /** Filtering the seed by "xyz" shows nothing. */
  lemma SeedFilterXyz()
    ensures Filtered(Seed, "xyz") == []
  {
    SeedNames();
    SeedNamesLackX();
    assert Lower("xyz")[0] == 'x';
    FilteredMissingLetter(Seed, "xyz", 'x');
  }

  /** Deleting the id of the third of three contacts keeps the first two. */
  lemma WithoutThirdOfThree(a: Contact, b: Contact, x: Contact, id: string)
    requires x.id == id && a.id != id && b.id != id
    ensures WithoutId([a, b, x], id) == [a, b]
  {
    assert WithoutId([a], id) == [a] by {
      assert [a] == [] + [a];
      WithoutIdAppend([], a, id);
    }
    assert WithoutId([a, b], id) == [a, b] by {
      assert [a, b] == [a] + [b];
      WithoutIdAppend([a], b, id);
    }
    assert [a, b, x] == [a, b] + [x];
    WithoutIdAppend([a, b], x, id);
  }

  /** Deleting the id of the third of four contacts, after adding a fifth. */
  lemma WithoutThirdOfFive(a: Contact, b: Contact, x: Contact, d: Contact, c: Contact, id: string)
    requires x.id == id && a.id != id && b.id != id && d.id != id && c.id != id
    ensures WithoutId([a, b, x, d] + [c], id) == [a, b, d, c]
  {
    assert WithoutId([a, b, x, d], id) == [a, b, d] by {
      WithoutThirdOfThree(a, b, x, id);
      assert [a, b, x, d] == [a, b, x] + [d];
      WithoutIdAppend([a, b, x], d, id);
    }
    WithoutIdAppend([a, b, x, d], c, id);
  }

  /** The seed ids, in order. */
  lemma SeedIds()
    ensures Seed[0].id == "id-1" && Seed[1].id == "id-2"
    ensures Seed[2].id == "id-3" && Seed[3].id == "id-4"
  {
  }

  /** Starting from the seed, adding a contact whose id is not "id-3" and then deleting "id-3"
      (Eden Clements) leaves the other three seed contacts, in order,
      followed by the new one. */
  lemma SeedAddThenDelete(c: Contact)
    requires c.id != "id-3"
    ensures WithoutId(Seed + [c], "id-3") == [Seed[0], Seed[1], Seed[3], c]
  {
    SeedIds();
    assert Seed == [Seed[0], Seed[1], Seed[2], Seed[3]];
    WithoutThirdOfFive(Seed[0], Seed[1], Seed[2], Seed[3], c, "id-3");
  }

  /** One edit of the contact list, as the user interface issues them. */
  datatype Edit = Added(contact: Contact) | Deleted(id: string)

  /** The list after one edit: an add appends, a delete filters. */
  function Apply(cs: seq<Contact>, e: Edit): (r: seq<Contact>)
    ensures |r| <= |cs| + 1
    ensures forall d :: d in r ==> d in cs || e == Added(d)
  {
    match e
    case Added(c) => cs + [c]
    case Deleted(id) => WithoutId(cs, id)
  }

  /** The list after a series of edits, oldest first. */
  function Replay(cs: seq<Contact>, es: seq<Edit>): (r: seq<Contact>)
    ensures forall d :: d in r ==> d in cs || Added(d) in es
    decreases |es|
  {
    if es == [] then cs
    else
      var r := Replay(Apply(cs, es[0]), es[1..]);
      assert forall d :: Added(d) in es[1..] ==> Added(d) in es;
      r
  }

  /** The contacts the edits add, in the order they are added. */
  function AddedContacts(es: seq<Edit>): (r: seq<Contact>)
    ensures forall c :: c in r <==> Added(c) in es
  {
    if es == [] then []
    else
      (match es[0] case Added(c) => [c] case Deleted(_) => []) + AddedContacts(es[1..])
  }

  /** An add moves the added contact from the tail to the list proper. */
  lemma AddStepInOrder(cs: seq<Contact>, c: Contact, rest: seq<Contact>)
    ensures IsSubsequence((cs + [c]) + rest, cs + ([c] + rest))
  {
    assert (cs + [c]) + rest == cs + ([c] + rest);
    SubsequenceRefl(cs + ([c] + rest));
  }

  /** A delete drops contacts from the list proper and keeps the tail. */
  lemma DeleteStepInOrder(cs: seq<Contact>, id: string, rest: seq<Contact>)
    ensures IsSubsequence(WithoutId(cs, id) + rest, cs + rest)
  {
    WithoutIdIsSubsequence(cs, id);
    SubsequenceAppend(WithoutId(cs, id), cs, rest);
  }

  /** One edit keeps the list, followed by what the remaining edits add,
      a subsequence of the list followed by everything the edits add. */
  lemma AddedContactsStep(cs: seq<Contact>, es: seq<Edit>)
    requires es != []
    ensures IsSubsequence(Apply(cs, es[0]) + AddedContacts(es[1..]), cs + AddedContacts(es))
  {
    var rest := AddedContacts(es[1..]);
    match es[0]
    case Added(c) =>
      assert AddedContacts(es) == [c] + rest;
      AddStepInOrder(cs, c, rest);
    case Deleted(id) =>
      assert AddedContacts(es) == rest;
      DeleteStepInOrder(cs, id, rest);
  }

  /** After any series of adds and deletes, the list holds the starting
      contacts followed by the added ones, in that order, minus some that
      were deleted: nothing is ever reordered. */
  lemma {:induction false} ReplayInOrder(cs: seq<Contact>, es: seq<Edit>)
    ensures IsSubsequence(Replay(cs, es), cs + AddedContacts(es))
    decreases |es|
  {
    if es == [] {
      assert cs + AddedContacts(es) == cs;
      SubsequenceRefl(cs);
    } else {
      var e, rest := es[0], es[1..];
      var next := Apply(cs, e);
      assert Replay(cs, es) == Replay(next, rest);
      ReplayInOrder(next, rest);
      AddedContactsStep(cs, es);
      SubsequenceTrans(Replay(cs, es), next + AddedContacts(rest), cs + AddedContacts(es));
    }
  }

  /** `c` is added by some edit of `es` after which its id is never deleted. */
  ghost predicate AddedAndKept(es: seq<Edit>, c: Contact) {
    exists k :: 0 <= k < |es| && es[k] == Added(c) && Deleted(c.id) !in es[k + 1..]
  }

  /** AddedAndKept, split on the first edit. */
  lemma AddedAndKeptCons(es: seq<Edit>, c: Contact)
    requires es != []
    ensures AddedAndKept(es, c) <==>
      (es[0] == Added(c) && Deleted(c.id) !in es[1..]) || AddedAndKept(es[1..], c)
  {
    var rest := es[1..];
    if AddedAndKept(es, c) {
      var k :| 0 <= k < |es| && es[k] == Added(c) && Deleted(c.id) !in es[k + 1..];
      if k > 0 {
        assert rest[k - 1] == es[k] && rest[k..] == es[k + 1..];
      }
    }
    if AddedAndKept(rest, c) {
      var k :| 0 <= k < |rest| && rest[k] == Added(c) && Deleted(c.id) !in rest[k + 1..];
      assert es[k + 1] == rest[k] && es[k + 2..] == rest[k + 1..];
    }
    if es[0] == Added(c) && Deleted(c.id) !in rest {
      assert es[1..] == rest;
    }
  }

  /** After any series of adds and deletes, a contact is in the list exactly
      when it was there at the start, or was added, and no later delete
      named its id. */
  lemma {:induction false} ReplayMembership(cs: seq<Contact>, es: seq<Edit>, c: Contact)
    ensures c in Replay(cs, es) <==>
      (c in cs && Deleted(c.id) !in es) || AddedAndKept(es, c)
    decreases |es|
  {
    if es != [] {
      var e, rest := es[0], es[1..];
      assert es == [e] + rest;
      ReplayMembership(Apply(cs, e), rest, c);
      AddedAndKeptCons(es, c);
    }
  }
}
