/** The pipeline `main` runs once the messages are fetched
    (tidy_inbox.py:267-282): group, rank, and pair every ranked sender with
    its filter query and search link. */
module TidyInbox {
  import opened Wrappers
  import opened HeaderDecoding
  import opened Extraction
  import opened Grouping
  import opened Ranking
  import opened SearchUrl

  /** One ranked sender with the strings shown beside it. */
  datatype RankedEntry = RankedEntry(
    senderEmail: string,
    group: Group,
    filterQuery: string,
    fullFilter: string,
    searchUrl: string)

  /** The strings of tidy_inbox.py:279-282 for one sorted item. */
  function Present(query: string, e: Entry): (r: RankedEntry)
    ensures r.senderEmail == e.sender && r.group == e.group
    ensures SenderOfQuery(r.filterQuery) == Some(e.sender)
    ensures |r.fullFilter| > |query| && r.fullFilter[..|query| + 1] == query + " " && r.fullFilter[|query| + 1..] == r.filterQuery
    ensures |r.searchUrl| >= |SearchPrefix| && r.searchUrl[..|SearchPrefix|] == SearchPrefix &&
            UnquotePlus(r.searchUrl[|SearchPrefix|..]) == Some(r.fullFilter)
    ensures WellEncoded(r.searchUrl[|SearchPrefix|..])
    ensures forall i :: |SearchPrefix| <= i < |r.searchUrl| ==> UrlSafe(r.searchUrl[i])
  {
    SearchLinkDecodes(query, e.sender);
    QuotePlusWellEncoded(FullFilter(query, e.sender));
    QuotePlusSafe(FullFilter(query, e.sender));
    assert SearchLink(query, e.sender)[|SearchPrefix|..] == QuotePlus(FullFilter(query, e.sender));
    FilterQueryNamesSender(e.sender);
    var full := FullFilter(query, e.sender);
    assert full[|query| + 1..] == FilterQuery(e.sender);
    RankedEntry(e.sender, e.group, FilterQuery(e.sender), full, SearchLink(query, e.sender))
  }

  /** Everything `main` computes from the fetched messages: a decode error
      ends the run, otherwise every retained group in ranked order. The
      early exits of tidy_inbox.py:263-270 only print, and the list they
      skip is empty anyway. */
  function Run(c: Codecs, msgs: seq<Message>, query: string, criteria: string)
    : Result<seq<RankedEntry>, DecodeError>
  {
    var groups :- GroupEmails(c, msgs);
    var sorted := SortGroups(groups, criteria);
    Success(seq(|sorted|, i requires 0 <= i < |sorted| => Present(query, sorted[i])))
  }

  /** The run fails exactly when grouping fails, that is, when a header
      cannot be decoded. */
  lemma RunFailsIff(c: Codecs, msgs: seq<Message>, query: string, criteria: string)
    ensures Run(c, msgs, query, criteria).Failure? <==> GroupEmails(c, msgs).Failure?
  {
  }

  /** A run that succeeds presents every retained group exactly once, in
      descending order of the chosen key with ties in grouping order, each
      sender once, each with the query's full filter string for that sender
      and a well-formed percent-encoded link to it. */
  lemma RunSpec(c: Codecs, msgs: seq<Message>, query: string, criteria: string)
    requires GroupEmails(c, msgs).Success?
    ensures Run(c, msgs, query, criteria).Success?
    ensures var gs := GroupEmails(c, msgs).value;
            var out := Run(c, msgs, query, criteria).value;
            var sorted := SortGroups(gs, criteria);
            && multiset(sorted) == multiset(gs)
            && Descending(CriteriaOf(criteria), sorted)
            && Distinct(Senders(sorted))
            && |out| == |sorted|
            && (forall i :: 0 <= i < |out| ==>
                  out[i].senderEmail == sorted[i].sender && out[i].group == sorted[i].group &&
                  SenderOfQuery(out[i].filterQuery) == Some(sorted[i].sender) &&
                  out[i].fullFilter == FullFilter(query, sorted[i].sender) &&
                  out[i].searchUrl == SearchLink(query, sorted[i].sender) &&
                  UnquotePlus(out[i].searchUrl[|SearchPrefix|..]) == Some(out[i].fullFilter) &&
                  WellEncoded(out[i].searchUrl[|SearchPrefix|..]))
    ensures var gs := GroupEmails(c, msgs).value;
            var sorted := SortGroups(gs, criteria);
            forall k :: WithKey(CriteriaOf(criteria), sorted, k) == WithKey(CriteriaOf(criteria), gs, k)
  {
    var gs := GroupEmails(c, msgs).value;
    var sorted := SortGroups(gs, criteria);
    SortBySorted(CriteriaOf(criteria), gs);
    GroupEmailsSpec(c, msgs);
    PermutationKeepsSendersDistinct(sorted, gs);
    forall k
      ensures WithKey(CriteriaOf(criteria), sorted, k) == WithKey(CriteriaOf(criteria), gs, k)
    {
      SortByStable(CriteriaOf(criteria), gs, k);
    }
    var out := Run(c, msgs, query, criteria).value;
    assert out == seq(|sorted|, i requires 0 <= i < |sorted| => Present(query, sorted[i]));
  }

  /** No messages: nothing is shown. */
  lemma RunEmpty(c: Codecs, query: string, criteria: string)
    ensures Run(c, [], query, criteria).Success? && Run(c, [], query, criteria).value == []
  {
    EmptyInputNoGroups(c);
    assert SortGroups([], criteria) == [];
  }
}
