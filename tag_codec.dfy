/** The tag list of a replication job and its persisted form: the list is
    stored in the single `tags` column joined with ",", and read back by
    splitting that column on "," when it is not empty. Join and Split follow
    the Go library's strings.Join and strings.Split with a "," separator. */
module TagCodec {

  const Sep: char := ','

  /** The tags joined with "," (an empty list joins to ""). */
  function Join(tags: seq<string>): (s: string)
  {
    if |tags| == 0 then ""
    else if |tags| == 1 then tags[0]
    else tags[0] + [Sep] + Join(tags[1..])
  }

  /** The pieces of `s` between its commas. Splitting "" gives [""], and a
      string with n commas gives n + 1 pieces, none of which holds a comma. */
  function Split(s: string): (pieces: seq<string>)
    ensures |pieces| >= 1
    ensures forall k :: 0 <= k < |pieces| ==> Sep !in pieces[k]
    ensures |pieces| == 1 + CommaCount(s)
  {
    if s == [] then [""]
    else if s[0] == Sep then [""] + Split(s[1..])
    else
      var rest := Split(s[1..]);
      [[s[0]] + rest[0]] + rest[1..]
  }

  /** The number of separators in `s`. */
  function CommaCount(s: string): nat
  {
    if s == [] then 0 else (if s[0] == Sep then 1 else 0) + CommaCount(s[1..])
  }

  /** Every tag is free of the separator. */
  predicate CommaFree(tags: seq<string>) {
    forall k :: 0 <= k < |tags| ==> Sep !in tags[k]
  }

  /** A comma-free string is a single piece. */
  lemma {:induction false} SplitSingle(t: string)
    requires Sep !in t
    ensures Split(t) == [t]
  {
    if t != [] {
      SplitSingle(t[1..]);
      assert [t[0]] + t[1..] == t;
    }
  }

  /** A comma-free first piece followed by a comma splits off as one element. */
  lemma {:induction false} SplitFirst(t: string, rest: string)
    requires Sep !in t
    ensures Split(t + [Sep] + rest) == [t] + Split(rest)
  {
    var s := t + [Sep] + rest;
    if t == [] {
      assert s[0] == Sep && s[1..] == rest;
    } else {
      assert s[0] == t[0] && s[1..] == t[1..] + [Sep] + rest;
      SplitFirst(t[1..], rest);
      assert [t[0]] + t[1..] == t;
    }
  }

  /** Splitting a join gives back the list, for comma-free tags. */
  lemma {:induction false} SplitJoin(tags: seq<string>)
    requires |tags| >= 1 && CommaFree(tags)
    ensures Split(Join(tags)) == tags
  {
    if |tags| == 1 {
      SplitSingle(tags[0]);
    } else {
      SplitJoin(tags[1..]);
      SplitFirst(tags[0], Join(tags[1..]));
      assert [tags[0]] + tags[1..] == tags;
    }
  }

  /** Joining the pieces of a split gives back the string, for every string. */
  lemma {:induction false} JoinSplit(s: string)
    ensures Join(Split(s)) == s
  {
    if s != [] {
      JoinSplit(s[1..]);
      var rest := Split(s[1..]);
      if s[0] == Sep {
        assert Split(s)[1..] == rest;
      } else if |rest| == 1 {
        assert Split(s) == [[s[0]] + rest[0]];
      } else {
        var pieces := Split(s);
        assert pieces[0] == [s[0]] + rest[0] && pieces[1..] == rest[1..];
        assert Join(rest) == rest[0] + [Sep] + Join(rest[1..]);
      }
    }
  }

  /** Only the empty string splits into the single empty piece. */
  lemma SplitIsEmptyPiece(s: string)
    ensures Split(s) == [""] <==> s == ""
  {
    if Split(s) == [""] {
      JoinSplit(s);
    }
  }

  /** The `tags` column written on insert: the joined list when the list is
      not empty, otherwise the `tags` value the caller supplied. */
  function StoredTags(tagList: seq<string>, tags: string): string
  {
    if |tagList| > 0 then Join(tagList) else tags
  }

  /** The tag list rebuilt from the `tags` column after a read: split only
      when the column is not empty, otherwise the list stays empty. */
  function ReadTags(tags: string): (tagList: seq<string>)
    ensures tagList != [""]
    ensures tags == "" <==> tagList == []
  {
    if |tags| > 0 then
      SplitIsEmptyPiece(tags);
      Split(tags)
    else []
  }

  /** The write-then-read round trip: for comma-free tags a non-empty list
      reads back unchanged exactly when it is not the single empty tag, and
      an empty list with an empty column reads back as empty. */
  lemma TagRoundTrip(tagList: seq<string>, tags: string)
    requires CommaFree(tagList)
    ensures |tagList| > 0 ==> (ReadTags(StoredTags(tagList, tags)) == tagList <==> tagList != [""])
    ensures |tagList| == 0 && tags == "" ==> ReadTags(StoredTags(tagList, tags)) == []
  {
    if |tagList| > 0 && tagList != [""] {
      SplitJoin(tagList);
      if Join(tagList) == "" {
        SplitIsEmptyPiece(Join(tagList));
      }
    }
  }

  /** The round trip as it is usually stated: tags that are all non-empty
      and comma-free come back in the same order. */
  lemma NonEmptyTagsRoundTrip(tagList: seq<string>, tags: string)
    requires CommaFree(tagList)
    requires forall k :: 0 <= k < |tagList| ==> tagList[k] != ""
    ensures |tagList| > 0 ==> ReadTags(StoredTags(tagList, tags)) == tagList
  {
    TagRoundTrip(tagList, tags);
  }
}
