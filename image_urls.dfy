/**
 * The multi-image part of the editor's submit (cms-noticias/src/NewsFrom.tsx):
 * selected files are uploaded one after the other, every non-empty public URL
 * is collected, and the URLs are stored as one comma-separated string.
 */
module ImageUrls {
  import opened Wrappers

  const SEPARATOR: char := ','

  /** What uploading one selected file gives: its public URL, or the error the upload threw. */
  datatype UploadOutcome = Uploaded(url: string) | UploadFailed(message: string)

  /** `urls.join(",")`. */
  function JoinComma(urls: seq<string>): (r: string)
    ensures urls == [] ==> r == ""
    ensures urls != [] && (forall i :: 0 <= i < |urls| ==> SEPARATOR !in urls[i]) ==>
      multiset(r)[SEPARATOR] == |urls| - 1
  {
    if urls == [] then ""
    else if |urls| == 1 then urls[0]
    else urls[0] + [SEPARATOR] + JoinComma(urls[1..])
  }

  /** `s.split(",")`: the pieces between separators; the empty string gives one empty piece. */
  function SplitComma(s: string): (r: seq<string>)
    ensures |r| >= 1
    ensures forall i :: 0 <= i < |r| ==> SEPARATOR !in r[i]
  {
    if s == [] then [""]
    else
      var rest := SplitComma(s[1..]);
      if s[0] == SEPARATOR then [""] + rest
      else [[s[0]] + rest[0]] + rest[1..]
  }

  /** A piece without separators glues onto the first piece of what follows it. */
  lemma {:induction false} SplitCommaPrefix(u: string, t: string)
    requires SEPARATOR !in u
    ensures SplitComma(u + t) == [u + SplitComma(t)[0]] + SplitComma(t)[1..]
  {
    if u != [] {
      assert (u + t)[1..] == u[1..] + t;
      SplitCommaPrefix(u[1..], t);
      assert [u[0]] + (u[1..] + SplitComma(t)[0]) == u + SplitComma(t)[0];
    } else {
      var r := SplitComma(t);
      assert u + t == t && u + r[0] == r[0];
      assert r == [r[0]] + r[1..];
    }
  }

  /**
   * The stored value gives back the collected URLs: splitting the join of a
   * non-empty list of comma-free URLs yields the list itself, so the join has
   * no separator in front, none at the end and none doubled.
   */
  lemma {:induction false} SplitJoinRoundTrip(urls: seq<string>)
    requires urls != []
    requires forall i :: 0 <= i < |urls| ==> SEPARATOR !in urls[i]
    ensures SplitComma(JoinComma(urls)) == urls
  {
    if |urls| == 1 {
      SplitCommaPrefix(urls[0], "");
      assert urls[0] + "" == urls[0];
    } else {
      var tail := JoinComma(urls[1..]);
      SplitJoinRoundTrip(urls[1..]);
      assert urls[0] + [SEPARATOR] + tail == urls[0] + ([SEPARATOR] + tail);
      SplitCommaPrefix(urls[0], [SEPARATOR] + tail);
      assert ([SEPARATOR] + tail)[1..] == tail;
      assert SplitComma([SEPARATOR] + tail) == [""] + urls[1..];
      assert urls[0] + "" == urls[0];
    }
  }

  /** The first and the last URL are the two ends of the joined string. */
  lemma {:induction false} JoinCommaEnds(urls: seq<string>)
    requires urls != []
    ensures |JoinComma(urls)| >= |urls[0]| && JoinComma(urls)[..|urls[0]|] == urls[0]
    ensures |JoinComma(urls)| >= |urls[|urls| - 1]|
    ensures JoinComma(urls)[|JoinComma(urls)| - |urls[|urls| - 1]|..] == urls[|urls| - 1]
  {
    if |urls| > 1 {
      JoinCommaEnds(urls[1..]);
      var r := JoinComma(urls);
      var tail := JoinComma(urls[1..]);
      assert r == urls[0] + ([SEPARATOR] + tail);
      assert r[|r| - |tail|..] == tail;
      var last := urls[|urls| - 1];
      assert urls[1..][|urls[1..]| - 1] == last;
      assert r[|r| - |last|..] == tail[|tail| - |last|..];
    }
  }

  /**
   * The reference meaning of the upload loop, one file after another: the
   * non-empty URLs in selection order, or the message of the first upload that
   * threw (the uploads after it never happen).
   */
  function UploadAll(outcomes: seq<UploadOutcome>): (r: Result<seq<string>, string>)
    ensures r.Success? ==> |r.value| <= |outcomes|
    ensures r.Success? ==> forall k :: 0 <= k < |r.value| ==> r.value[k] != ""
  {
    if outcomes == [] then Success([])
    else
      match UploadAll(outcomes[..|outcomes| - 1])
      case Failure(m) => Failure(m)
      case Success(urls) =>
        match outcomes[|outcomes| - 1]
        case UploadFailed(m) => Failure(m)
        case Uploaded(u) => Success(if u != "" then urls + [u] else urls)
  }

  /** A failure in a prefix decides the outcome of the whole sequence. */
  lemma {:induction false} UploadAllFailureSticks(outcomes: seq<UploadOutcome>, j: nat, m: string)
    requires j <= |outcomes| && UploadAll(outcomes[..j]) == Failure(m)
    ensures UploadAll(outcomes) == Failure(m)
    decreases |outcomes| - j
  {
    if j < |outcomes| {
      assert outcomes[..j + 1][..j] == outcomes[..j];
      UploadAllFailureSticks(outcomes, j + 1, m);
    } else {
      assert outcomes[..j] == outcomes;
    }
  }

  /**
   * The loop succeeds exactly when no upload throws; it then keeps only
   * non-empty URLs, never more than there were files. Otherwise the message is
   * that of the first upload that threw.
   */
  lemma {:induction false} UploadAllMeaning(outcomes: seq<UploadOutcome>)
    ensures UploadAll(outcomes).Success? <==> forall i :: 0 <= i < |outcomes| ==> outcomes[i].Uploaded?
    ensures UploadAll(outcomes).Success? ==>
      |UploadAll(outcomes).value| <= |outcomes| &&
      forall k :: 0 <= k < |UploadAll(outcomes).value| ==> UploadAll(outcomes).value[k] != ""
    ensures UploadAll(outcomes).Failure? ==>
      exists i :: 0 <= i < |outcomes| && outcomes[i] == UploadFailed(UploadAll(outcomes).error) &&
        forall j :: 0 <= j < i ==> outcomes[j].Uploaded?
  {
    if outcomes != [] {
      var init := outcomes[..|outcomes| - 1];
      UploadAllMeaning(init);
      assert forall i :: 0 <= i < |init| ==> init[i] == outcomes[i];
    }
  }

  /**
   * The URLs a run without errors keeps, read front to back: each upload's URL
   * when it is non-empty, in selection order.
   */
  function NonEmptyUrls(outcomes: seq<UploadOutcome>): seq<string>
  {
    if outcomes == [] then []
    else
      (if outcomes[0].Uploaded? && outcomes[0].url != "" then [outcomes[0].url] else [])
      + NonEmptyUrls(outcomes[1..])
  }

  /** Reading front to back, one more upload at the end adds its URL at the end, if non-empty. */
  lemma {:induction false} NonEmptyUrlsSnoc(outcomes: seq<UploadOutcome>, last: UploadOutcome)
    ensures NonEmptyUrls(outcomes + [last]) ==
      NonEmptyUrls(outcomes) + NonEmptyUrls([last])
  {
    if outcomes == [] {
      assert outcomes + [last] == [last];
    } else {
      assert (outcomes + [last])[1..] == outcomes[1..] + [last];
      NonEmptyUrlsSnoc(outcomes[1..], last);
    }
  }

  /**
   * When no upload throws, the loop keeps every non-empty URL the uploads
   * return, and only those, in selection order.
   */
  lemma {:induction false} UploadAllKeepsNonEmptyUrls(outcomes: seq<UploadOutcome>)
    ensures (forall i :: 0 <= i < |outcomes| ==> outcomes[i].Uploaded?) ==>
      UploadAll(outcomes) == Success(NonEmptyUrls(outcomes))
  {
    if outcomes != [] && forall i :: 0 <= i < |outcomes| ==> outcomes[i].Uploaded? {
      var init, last := outcomes[..|outcomes| - 1], outcomes[|outcomes| - 1];
      UploadAllKeepsNonEmptyUrls(init);
      assert init + [last] == outcomes;
      NonEmptyUrlsSnoc(init, last);
      assert [last][1..] == [];
      assert NonEmptyUrls([last]) == if last.url != "" then [last.url] else [];
      assert NonEmptyUrls(outcomes) == NonEmptyUrls(init) + NonEmptyUrls([last]);
      if last.url == "" {
        assert NonEmptyUrls(init) + [] == NonEmptyUrls(init);
      }
    }
  }

  /**
   * The `for` loop of the submit handler over the uploads of the selected
   * files. `attempted` is how many uploads were issued: all of them, or up to
   * and including the first one that threw.
   */
  method UploadSelected(outcomes: seq<UploadOutcome>) returns (result: Result<seq<string>, string>, attempted: nat)
    ensures result == UploadAll(outcomes)
    ensures attempted <= |outcomes|
    ensures result.Success? ==> attempted == |outcomes| && result.value == NonEmptyUrls(outcomes)
    ensures result.Failure? ==>
      attempted >= 1 && outcomes[attempted - 1] == UploadFailed(result.error) &&
      forall j :: 0 <= j < attempted - 1 ==> outcomes[j].Uploaded?
  {
    var uploadedUrls: seq<string> := [];
    var thrown: Option<string> := None;
    var i := 0;
    while i < |outcomes| && thrown.None?
      invariant 0 <= i <= |outcomes|
      invariant thrown.None? ==> UploadAll(outcomes[..i]) == Success(uploadedUrls)
      invariant thrown.Some? ==>
        i >= 1 && UploadAll(outcomes[..i]) == Failure(thrown.value) && outcomes[i - 1] == UploadFailed(thrown.value)
      invariant forall j :: 0 <= j < i && (thrown.None? || j < i - 1) ==> outcomes[j].Uploaded?
    {
      assert outcomes[..i + 1][..i] == outcomes[..i];
      match outcomes[i] {
        case UploadFailed(m) =>
          thrown := Some(m);
        case Uploaded(url) =>
          if url != "" {
            uploadedUrls := uploadedUrls + [url];
          }
      }
      i := i + 1;
    }
    attempted := i;
    if thrown.Some? {
      UploadAllFailureSticks(outcomes, i, thrown.value);
      result := Failure(thrown.value);
    } else {
      assert outcomes[..i] == outcomes;
      UploadAllKeepsNonEmptyUrls(outcomes);
      result := Success(uploadedUrls);
    }
  }
}
