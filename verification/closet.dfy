/**
 The in-memory virtual closet of the photo-picker view model: an append-only
 sequence of clothing items, the staging fields the upload form fills in, the
 upload operation and the random pick of an item for an occasion.

 The store is an immutable value; every operation that changes it returns the
 new store, and the query takes the store by value and returns no store.
 */
module Closet {
  import opened Wrappers
  import opened Ascii
  import opened Seqs

  /** An opaque handle to a decoded image. */
  datatype Image = Image(handle: nat)

  /** One catalogued garment. The identifier is drawn from the store's counter,
      which stands for a freshly generated UUID. */
  datatype ClothingItem = ClothingItem(id: nat, image: Image, occasion: string, clothingType: string)

  /** The view model's state: the closet, the three staging fields of the upload
      form, `selectedOccasionForDressMe` (a field the app declares but never
      writes), and the next fresh id. */
  datatype Store = Store(
    closet: seq<ClothingItem>,
    selectedImage: Option<Image>,
    occasion: string,
    clothingType: string,
    selectedOccasionForDressMe: string,
    nextId: nat)

  /** Every id in the closet was issued before `nextId`, and no two items share one. */
  predicate Valid(s: Store) {
    && (forall i :: 0 <= i < |s.closet| ==> s.closet[i].id < s.nextId)
    && (forall i, j :: 0 <= i < j < |s.closet| ==> s.closet[i].id != s.closet[j].id)
  }

  /** A freshly constructed view model. */
  function Initial(): (s: Store)
    ensures Valid(s)
    ensures s.closet == [] && s.selectedImage == None
    ensures s.occasion == "" && s.clothingType == "" && s.selectedOccasionForDressMe == ""
  {
    Store([], None, "", "", "", 0)
  }

  /** The image loader has decoded a picked photo: it becomes the staged image,
      replacing any earlier one. */
  function ImageLoaded(s: Store, image: Image): Store {
    s.(selectedImage := Some(image))
  }

  /** Only the last photo the loader delivers before an upload is filed: loading
      again replaces the staged photo rather than queueing it. */
  lemma LastLoadWins(s: Store, a: Image, b: Image)
    ensures ImageLoaded(ImageLoaded(s, a), b) == ImageLoaded(s, b)
    ensures UploadToVirtualCloset(ImageLoaded(ImageLoaded(s, a), b)).closet
      == s.closet + [ClothingItem(s.nextId, b, s.occasion, s.clothingType)]
  {
  }

  /** Files the staged image with the staged occasion and clothing type, then
      clears the form. Without a staged image nothing happens. */
  function UploadToVirtualCloset(s: Store): (s': Store)
    ensures s.selectedImage.None? ==> s' == s
    ensures s.selectedImage.Some? ==>
      && |s'.closet| == |s.closet| + 1
      && s'.closet[..|s.closet|] == s.closet
      && s'.closet[|s.closet|].image == s.selectedImage.value
      && s'.closet[|s.closet|].occasion == s.occasion
      && s'.closet[|s.closet|].clothingType == s.clothingType
    ensures s.selectedImage.Some? ==>
      s'.selectedImage == None && s'.occasion == "" && s'.clothingType == ""
    ensures s'.selectedOccasionForDressMe == s.selectedOccasionForDressMe
    ensures Valid(s) ==> Valid(s')
  {
    match s.selectedImage
    case None => s
    case Some(image) =>
      var item := ClothingItem(s.nextId, image, s.occasion, s.clothingType);
      s.(closet := s.closet + [item],
         selectedImage := None,
         occasion := "",
         clothingType := "",
         nextId := s.nextId + 1)
  }

  /** The matching key of an occasion: trimmed, then lower-cased. */
  function Normalize(occasion: string): string {
    Lower(Trim(occasion))
  }

  /** Surrounding whitespace and letter case never change the matching key. */
  lemma NormalizeIgnoresPaddingAndCase(pre: string, s: string, post: string)
    requires AllWhitespace(pre) && AllWhitespace(post)
    ensures Normalize(pre + s + post) == Normalize(s)
    ensures Normalize(Upper(s)) == Normalize(s)
    ensures Normalize(Lower(s)) == Normalize(s)
  {
    TrimIgnoresPadding(pre, s, post);
    UpperCommutesWithTrim(s);
    LowerCommutesWithTrim(s);
    LowerForgetsCase(Trim(s));
  }

  /** The candidates for a query: the items whose normalised occasion equals the
      normalised query, in closet order. */
  function Candidates(s: Store, query: string): (r: seq<ClothingItem>)
    ensures forall x :: x in r <==> x in s.closet && Normalize(x.occasion) == Normalize(query)
  {
    var key := Normalize(query);
    var keep := (x: ClothingItem) => Normalize(x.occasion) == key;
    FilterMembers(s.closet, keep);
    Filter(s.closet, keep)
  }

  /** The candidates keep closet order and repeats: those of a closet split in two
      are those of the first part followed by those of the second, and a
      one-item closet yields its item exactly when it matches. */
  lemma CandidatesInClosetOrder(s: Store, xs: seq<ClothingItem>, ys: seq<ClothingItem>, x: ClothingItem, query: string)
    ensures Candidates(s.(closet := xs + ys), query)
      == Candidates(s.(closet := xs), query) + Candidates(s.(closet := ys), query)
    ensures Candidates(s.(closet := [x]), query)
      == if Normalize(x.occasion) == Normalize(query) then [x] else []
  {
    var key := Normalize(query);
    var keep := (c: ClothingItem) => Normalize(c.occasion) == key;
    FilterAppend(xs, ys, keep);
    FilterSingleton(x, keep);
  }

  /** One random candidate, or none. The random generator is the parameter `draw`:
      the candidate at position `draw` modulo the number of candidates is picked. */
  function GetRandomItem(s: Store, query: string, draw: nat): (r: Option<ClothingItem>)
    ensures r.Some? ==> r.value in s.closet && Normalize(r.value.occasion) == Normalize(query)
    ensures r.None? <==> forall i :: 0 <= i < |s.closet| ==> Normalize(s.closet[i].occasion) != Normalize(query)
  {
    var candidates := Candidates(s, query);
    if |candidates| == 0 then
      assert forall i :: 0 <= i < |s.closet| ==> s.closet[i] !in candidates;
      None
    else
      assert candidates[0] in candidates;
      Some(candidates[draw % |candidates|])
  }

  lemma SmallModulus(k: nat, n: nat)
    requires k < n
    ensures k % n == k
  {
  }

  /** Every matching item is a possible answer: some draw of the generator returns it. */
  lemma EveryMatchCanBeDrawn(s: Store, query: string, x: ClothingItem)
    requires x in s.closet && Normalize(x.occasion) == Normalize(query)
    ensures exists draw: nat :: GetRandomItem(s, query, draw) == Some(x)
  {
    var candidates := Candidates(s, query);
    assert x in candidates;
    var k :| 0 <= k < |candidates| && candidates[k] == x;
    SmallModulus(k, |candidates|);
    var r := GetRandomItem(s, query, k);
    assert r == Some(candidates[k % |candidates|]);
  }

  /** Queries with the same matching key get the same candidates and, for the
      same draw, the same answer. */
  lemma SameKeySameAnswer(s: Store, q1: string, q2: string, draw: nat)
    ensures Normalize(q1) == Normalize(q2) ==> Candidates(s, q1) == Candidates(s, q2)
    ensures Normalize(q1) == Normalize(q2) ==> GetRandomItem(s, q1, draw) == GetRandomItem(s, q2, draw)
  {
  }

  /** Queries that differ only in surrounding whitespace or letter case get the
      same candidates and, for the same draw, the same answer. */
  lemma QueryIgnoresPaddingAndCase(s: Store, pre: string, query: string, post: string, draw: nat)
    requires AllWhitespace(pre) && AllWhitespace(post)
    ensures Candidates(s, pre + query + post) == Candidates(s, query)
    ensures Candidates(s, Upper(query)) == Candidates(s, query)
    ensures Candidates(s, Lower(query)) == Candidates(s, query)
    ensures GetRandomItem(s, pre + query + post, draw) == GetRandomItem(s, query, draw)
    ensures GetRandomItem(s, Upper(query), draw) == GetRandomItem(s, query, draw)
    ensures GetRandomItem(s, Lower(query), draw) == GetRandomItem(s, query, draw)
  {
    NormalizeIgnoresPaddingAndCase(pre, query, post);
  }

  /** What the upload form submits: the picked photo, if one was decoded, and the
      two labels chosen in the pickers. */
  datatype UploadRequest = UploadRequest(image: Option<Image>, occasion: string, clothingType: string)

  /** One press of the upload button: the decoded photo (if any) is staged, the
      chosen labels are copied into the staging fields and the upload runs. */
  function Submit(s: Store, req: UploadRequest): (s': Store)
    ensures s.selectedImage.None? && req.image.None? ==> s'.closet == s.closet
    ensures req.image.Some? ==>
      && |s'.closet| == |s.closet| + 1
      && s'.closet[..|s.closet|] == s.closet
      && s'.closet[|s.closet|..] == [ClothingItem(s.nextId, req.image.value, req.occasion, req.clothingType)]
    ensures s.selectedImage.Some? && req.image.None? ==>
      && |s'.closet| == |s.closet| + 1
      && s'.closet[..|s.closet|] == s.closet
      && s'.closet[|s.closet|..] == [ClothingItem(s.nextId, s.selectedImage.value, req.occasion, req.clothingType)]
    ensures s'.selectedImage == None
    ensures s.selectedImage.Some? || req.image.Some? ==> s'.occasion == "" && s'.clothingType == ""
    ensures s.selectedImage.None? && req.image.None? ==>
      s'.occasion == req.occasion && s'.clothingType == req.clothingType
  {
    var staged := match req.image
      case Some(image) => ImageLoaded(s, image)
      case None => s;
    UploadToVirtualCloset(staged.(occasion := req.occasion, clothingType := req.clothingType))
  }

  /** A session's upload-button presses, in order. */
  function SubmitAll(s: Store, reqs: seq<UploadRequest>): Store
    decreases |reqs|
  {
    if reqs == [] then s else SubmitAll(Submit(s, reqs[0]), reqs[1..])
  }

  /** The content of an item that the user supplied. */
  datatype Entry = Entry(image: Image, occasion: string, clothingType: string)

  function EntryOf(item: ClothingItem): Entry {
    Entry(item.image, item.occasion, item.clothingType)
  }

  function Entries(closet: seq<ClothingItem>): seq<Entry> {
    seq(|closet|, i requires 0 <= i < |closet| => EntryOf(closet[i]))
  }

  /** The requests that carried a photo, as entries, in order. */
  function Accepted(reqs: seq<UploadRequest>): seq<Entry> {
    if reqs == [] then []
    else if reqs[0].image.Some? then
      [Entry(reqs[0].image.value, reqs[0].occasion, reqs[0].clothingType)] + Accepted(reqs[1..])
    else Accepted(reqs[1..])
  }

  /** One press with no photo staged appends the request's entry if it carried a
      photo and nothing otherwise, leaves no photo staged and keeps the store valid. */
  lemma SubmitStep(s: Store, req: UploadRequest)
    requires s.selectedImage == None
    ensures var s' := Submit(s, req);
      && s'.selectedImage == None
      && |s'.closet| >= |s.closet|
      && s'.closet[..|s.closet|] == s.closet
      && Entries(s'.closet) == Entries(s.closet) + Accepted([req])
      && (Valid(s) ==> Valid(s'))
  {
    var s' := Submit(s, req);
    var staged := s.(occasion := req.occasion, clothingType := req.clothingType);
    if req.image.Some? {
      var e := Entry(req.image.value, req.occasion, req.clothingType);
      assert Accepted([req]) == [e] + Accepted([req][1..]);
      assert Entries(s'.closet) == Entries(s.closet) + [e];
      assert Valid(s) ==> Valid(ImageLoaded(staged, req.image.value));
    } else {
      assert s' == staged;
    }
  }

  /** The photos of a session are those of its first request and then of the rest. */
  lemma AcceptedCons(reqs: seq<UploadRequest>)
    requires reqs != []
    ensures Accepted(reqs) == Accepted([reqs[0]]) + Accepted(reqs[1..])
  {
    var r := reqs[0];
    assert [r][1..] == [];
    if r.image.Some? {
      assert Accepted([r]) == [Entry(r.image.value, r.occasion, r.clothingType)];
    } else {
      assert Accepted([r]) == [];
    }
  }

  /** Starting with no photo staged, a session of uploads keeps the earlier items
      in place and appends exactly the requests that carried a photo, in order,
      with their labels as entered; no photo is staged afterwards and the store
      stays valid. (Labels of a last press without a photo stay staged.) */
  lemma {:induction false} SubmitAllAppendsAccepted(s: Store, reqs: seq<UploadRequest>)
    requires s.selectedImage == None
    ensures SubmitAll(s, reqs).selectedImage == None
    ensures |SubmitAll(s, reqs).closet| >= |s.closet|
    ensures SubmitAll(s, reqs).closet[..|s.closet|] == s.closet
    ensures Entries(SubmitAll(s, reqs).closet) == Entries(s.closet) + Accepted(reqs)
    ensures Valid(s) ==> Valid(SubmitAll(s, reqs))
    decreases |reqs|
  {
    if reqs != [] {
      var s1 := Submit(s, reqs[0]);
      SubmitStep(s, reqs[0]);
      SubmitAllAppendsAccepted(s1, reqs[1..]);
      AcceptedCons(reqs);
      var final := SubmitAll(s1, reqs[1..]);
      assert final == SubmitAll(s, reqs);
      assert final.closet[..|s.closet|] == s.closet by {
        assert final.closet[..|s1.closet|][..|s.closet|] == s1.closet[..|s.closet|];
      }
    }
  }
}
