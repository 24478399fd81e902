/**
 Which archive members the extractor treats as photos: those whose
 lower-cased name ends in ".jpg" or ".jpeg", kept in archive listing order.
 */
module Candidates {
  import opened KmzPaths

  /** `m.lower().endswith((".jpg", ".jpeg"))`. */
  predicate IsPhoto(m: string)
  {
    EndsWith(Lower(m), ".jpg") || EndsWith(Lower(m), ".jpeg")
  }

  /** `[m for m in members if IsPhoto(m)]`. */
  function PhotoMembers(members: seq<string>): (r: seq<string>)
    ensures |r| <= |members|
    ensures forall i :: 0 <= i < |r| ==> IsPhoto(r[i]) && r[i] in members
  {
    if members == [] then []
    else (if IsPhoto(members[0]) then [members[0]] else []) + PhotoMembers(members[1..])
  }

  /** `sub` can be obtained from `s` by deleting elements, keeping the order of the rest. */
  predicate IsSubsequence(sub: seq<string>, s: seq<string>)
    decreases |s|
  {
    if s == [] then sub == []
    else IsSubsequence(sub, s[1..]) || (sub != [] && sub[0] == s[0] && IsSubsequence(sub[1..], s[1..]))
  }

  /** The candidates keep the listing order of the archive. */
  lemma {:induction false} PhotoMembersIsSubsequence(members: seq<string>)
    ensures IsSubsequence(PhotoMembers(members), members)
    decreases |members|
  {
    if members != [] {
      var rest := PhotoMembers(members[1..]);
      PhotoMembersIsSubsequence(members[1..]);
      if IsPhoto(members[0]) {
        assert PhotoMembers(members) == [members[0]] + rest;
        assert ([members[0]] + rest)[1..] == rest;
      } else {
        assert PhotoMembers(members) == rest;
      }
    }
  }

  /**
   The candidates are exactly the photo members, each as often as it is
   listed: a photo name occurs in the result as many times as in the
   archive, any other name not at all.
   */
  lemma {:induction false} PhotoMembersCount(members: seq<string>, m: string)
    ensures multiset(PhotoMembers(members))[m] == if IsPhoto(m) then multiset(members)[m] else 0
    decreases |members|
  {
    if members != [] {
      PhotoMembersCount(members[1..], m);
      assert members == [members[0]] + members[1..];
      assert multiset(members) == multiset([members[0]]) + multiset(members[1..]);
    }
  }

  /** Filtering distributes over concatenating two listings. */
  lemma {:induction false} PhotoMembersAppend(a: seq<string>, b: seq<string>)
    ensures PhotoMembers(a + b) == PhotoMembers(a) + PhotoMembers(b)
    decreases |a|
  {
    if a == [] {
      assert a + b == b;
    } else {
      assert (a + b)[0] == a[0];
      assert (a + b)[1..] == a[1..] + b;
      PhotoMembersAppend(a[1..], b);
    }
  }

  /** Filtering a list of photos changes nothing, so filtering twice is filtering once. */
  lemma {:induction false} PhotoMembersOfPhotos(photos: seq<string>)
    requires forall i :: 0 <= i < |photos| ==> IsPhoto(photos[i])
    ensures PhotoMembers(photos) == photos
    decreases |photos|
  {
    if photos != [] {
      assert IsPhoto(photos[0]);
      PhotoMembersOfPhotos(photos[1..]);
    }
  }

  lemma PhotoMembersIdempotent(members: seq<string>)
    ensures PhotoMembers(PhotoMembers(members)) == PhotoMembers(members)
  {
    PhotoMembersOfPhotos(PhotoMembers(members));
  }

  /** There are no candidates exactly when no member is a photo. */
  lemma {:induction false} PhotoMembersEmpty(members: seq<string>)
    ensures PhotoMembers(members) == [] <==> forall i :: 0 <= i < |members| ==> !IsPhoto(members[i])
    decreases |members|
  {
    if members != [] {
      PhotoMembersEmpty(members[1..]);
      assert forall i :: 1 <= i < |members| ==> members[i] == members[1..][i - 1];
    }
  }

  /** A name is kept exactly when it is a photo. */
  lemma PhotoMembersSingle(m: string)
    ensures PhotoMembers([m]) == if IsPhoto(m) then [m] else []
  {
    assert [m][1..] == [];
  }

  /** Upper- and lower-case extensions both count; other extensions do not. */
  lemma IsPhotoExamples()
    ensures IsPhoto("A.JPEG") && IsPhoto("b.jpg") && !IsPhoto("c.png")
  {
    assert Lower("A.JPEG") == "a.jpeg";
    assert Lower("b.jpg") == "b.jpg";
    assert Lower("c.png")[1..] == ".png";
  }

  /** An archive listing "A.JPEG", "b.jpg", "c.png" has the first two as candidates. */
  lemma PhotoMembersExample()
    ensures PhotoMembers(["A.JPEG", "b.jpg", "c.png"]) == ["A.JPEG", "b.jpg"]
  {
    IsPhotoExamples();
    PhotoMembersAppend(["A.JPEG"], ["b.jpg", "c.png"]);
    PhotoMembersAppend(["b.jpg"], ["c.png"]);
    PhotoMembersSingle("A.JPEG");
    PhotoMembersSingle("b.jpg");
    PhotoMembersSingle("c.png");
    assert ["A.JPEG", "b.jpg", "c.png"] == ["A.JPEG"] + (["b.jpg"] + ["c.png"]);
  }
}
