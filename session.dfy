/**
 * The per-session state the UI handlers share, and the handlers that change it:
 * focus (with the copy of the user's profile and policies from the server-side
 * user store), policy selection, clearing the conversation, and the email cache.
 */
module Session {
  import opened Common
  import opened Emails
  import Conversation

  /** A policy record as the server-side user store holds it. */
  datatype ServerPolicy = ServerPolicy(
    fileId: string, path: string, policyType: string, printName: string, carrier: string,
    format: string, isExtracted: bool, extractedFilePath: string,
    addlMetadata: Option<map<string, string>>)

  /** A user of the server-side user store. */
  datatype ServerUser = ServerUser(firstName: string, lastName: string, policies: seq<ServerPolicy>)

  /** The session's copy of one uploaded policy. */
  datatype Policy = Policy(
    fileId: string, path: string, policyType: string, printName: string, carrier: string,
    format: string, isExtracted: bool, extractedFilePath: string,
    additionalMetadata: Option<map<string, string>>)

  /** The session's copy of a server policy, field by field. */
  function CopyPolicy(p: ServerPolicy): Policy
  {
    Policy(p.fileId, p.path, p.policyType, p.printName, p.carrier, p.format,
           p.isExtracted, p.extractedFilePath, p.addlMetadata)
  }

  /** The session's copy of every policy of `user`, in the store's order. */
  function PoliciesOf(user: ServerUser): seq<Policy>
  {
    seq(|user.policies|, i requires 0 <= i < |user.policies| => CopyPolicy(user.policies[i]))
  }

  /**
   * `selected_policy`: Python's `None` before the first focus, the string
   * sentinel `"None"` for "no policy", or a policy.
   */
  datatype Selection = Unset | NoneSentinel | Chosen(policy: Policy)

  /** The display name that stands for "no policy". */
  const NoneName: string := "None"

  /** The answer of the Gmail search: the ids of the matching messages, or the error raised. */
  datatype MailListing = ListingFailed(error: string) | Listed(ids: seq<string>)

  /** The metadata `handle_fetch_emails` returns for one email. */
  datatype EmailSummary = EmailSummary(sender: string, subject: string, date: string, internalDate: int)

  function Summaries(s: seq<EmailRecord>): seq<EmailSummary>
  {
    seq(|s|, i requires 0 <= i < |s| => EmailSummary(s[i].sender, s[i].subject, s[i].date, s[i].internalDate))
  }

  /** The reply of `handle_fetch_emails`. */
  datatype FetchReply = FetchFailure(error: string) | NoneFound | FetchSuccess(count: nat, emails: seq<EmailSummary>)

  const GmailUnavailable: string := "Gmail functions not available"

  /** `get_message_body` either answers or raises. */
  datatype BodyResult = BodyOk(text: string) | BodyFailed(error: string)

  /** The body stored for a message: its text, or the text of the error. */
  function BodyText(r: BodyResult): string
  {
    match r
    case BodyOk(text) => text
    case BodyFailed(error) => "[Error fetching body: " + error + "]"
  }

  /** The email `handle_select_email` returns. */
  datatype EmailView = EmailView(sender: string, subject: string, date: string, body: string)

  /** The reply of `handle_select_email`. */
  datatype SelectReply = SelectFailure(error: string) | SelectSuccess(email: EmailView)

  const NoEmailsFetched: string := "No emails fetched"
  const InvalidEmailIndex: string := "Invalid email index"

  class SessionState {
    var userId: string
    var sessionId: string
    var isInitialized: bool
    var firstName: string
    var lastName: string
    var policyList: seq<Policy>
    var numberPolicies: nat
    /** `current_policy`, an attribute only `get_policy_file_info` sets; `None` until then. */
    var currentPolicy: Option<string>
    var selectedPolicy: Selection
    var selectedPolicyIndex: Option<nat>
    /** `fetched_emails`; a session that never fetched has none, modelled as empty. */
    var fetchedEmails: array<EmailRecord>
    var currentEmailIndex: int

    /** A fresh session as the handlers' documentation describes it before its first focus. */
    constructor ()
      ensures !isInitialized && userId == "" && numberPolicies == 0 && policyList == []
      ensures selectedPolicy == Unset && selectedPolicyIndex == None
      ensures fresh(fetchedEmails) && fetchedEmails.Length == 0
    {
      userId, sessionId, isInitialized := "", "", false;
      firstName, lastName := "", "";
      policyList, numberPolicies, currentPolicy := [], 0, None;
      selectedPolicy, selectedPolicyIndex := Unset, None;
      fetchedEmails := new EmailRecord[0];
      currentEmailIndex := 0;
    }

    /** `policy_is_selected`: a policy is selected and its text would be used for the next query. */
    predicate PolicyIsSelected()
      reads this
    {
      numberPolicies > 0 && selectedPolicyIndex.Some? && selectedPolicy != NoneSentinel
    }

    /**
     * When a policy counts as selected, its index is in range and the policy at
     * that index is the selected one (what `handle_query` relies on when it
     * reads `policy_list[selected_policy_index]`).
     */
    ghost predicate SelectionUsable()
      reads this
    {
      PolicyIsSelected() ==>
        selectedPolicyIndex.value < |policyList| && selectedPolicy == Chosen(policyList[selectedPolicyIndex.value])
    }

    /**
     * Whatever selection the session holds refers to its current list: a
     * selected policy or an index comes with the other, the index is in range
     * and the policy at it is the selected one.
     */
    ghost predicate SelectionConsistent()
      reads this
    {
      (selectedPolicy.Chosen? || selectedPolicyIndex.Some?) ==>
        && selectedPolicyIndex.Some?
        && selectedPolicyIndex.value < |policyList|
        && selectedPolicy == Chosen(policyList[selectedPolicyIndex.value])
    }

    /**
     * `get_policy_file_info`: rebuilds the policy list from the user's server
     * records, counts them, and sets `current_policy` to the sentinel when there
     * is at least one.
     */
    method GetPolicyFileInfo(serverUser: ServerUser) returns (list: seq<Policy>)
      modifies this`policyList, this`numberPolicies, this`currentPolicy
      ensures policyList == PoliciesOf(serverUser) && list == policyList
      ensures numberPolicies == |policyList| == |serverUser.policies|
      ensures currentPolicy == if numberPolicies > 0 then Some(NoneName) else old(currentPolicy)
    {
      var policyCount: nat := 0;
      policyList := [];
      for i := 0 to |serverUser.policies|
        invariant policyCount == i == |policyList|
        invariant currentPolicy == old(currentPolicy)
        invariant forall k :: 0 <= k < i ==> policyList[k] == CopyPolicy(serverUser.policies[k])
      {
        var seshPolicy := CopyPolicy(serverUser.policies[i]);
        policyList := policyList + [seshPolicy];
        policyCount := policyCount + 1;
      }
      numberPolicies := policyCount;
      if policyCount > 0 {
        currentPolicy := Some(NoneName);
      }
      list := policyList;
    }

    /**
     * `transfer_server_data_for_current_user`: copies the names and policies of
     * the session's user from the store. An unknown user makes the source raise
     * (the record it reads is never bound), so the user must be in the store.
     */
    method TransferServerData(serverUsers: map<string, ServerUser>)
      requires userId in serverUsers
      modifies this`firstName, this`lastName, this`policyList, this`numberPolicies, this`currentPolicy
      ensures firstName == serverUsers[userId].firstName && lastName == serverUsers[userId].lastName
      ensures policyList == PoliciesOf(serverUsers[userId])
      ensures numberPolicies == |policyList| == |serverUsers[userId].policies|
      ensures currentPolicy == if numberPolicies > 0 then Some(NoneName) else old(currentPolicy)
    {
      var serverUserData := serverUsers[userId];
      firstName := serverUserData.firstName;
      lastName := serverUserData.lastName;
      policyList := GetPolicyFileInfo(serverUserData);
    }

    /**
     * `handle_focus`: records the user and session ids, resets the selection on
     * the first focus only, then copies the user's data from the store.
     */
    method HandleFocus(userId: string, sessionId: string, serverUsers: map<string, ServerUser>)
      requires userId in serverUsers
      modifies this
      ensures this.userId == userId && this.sessionId == sessionId && isInitialized
      ensures !old(isInitialized) ==> selectedPolicy == NoneSentinel && selectedPolicyIndex == None
      ensures old(isInitialized) ==>
        selectedPolicy == old(selectedPolicy) && selectedPolicyIndex == old(selectedPolicyIndex)
      ensures firstName == serverUsers[userId].firstName && lastName == serverUsers[userId].lastName
      ensures policyList == PoliciesOf(serverUsers[userId])
      ensures numberPolicies == |policyList| == |serverUsers[userId].policies|
      ensures currentPolicy == if numberPolicies > 0 then Some(NoneName) else old(currentPolicy)
      ensures fetchedEmails == old(fetchedEmails) && currentEmailIndex == old(currentEmailIndex)
    {
      this.userId := userId;
      this.sessionId := sessionId;
      if !isInitialized {
        selectedPolicy := NoneSentinel;
        selectedPolicyIndex := None;
        isInitialized := true;
      }
      TransferServerData(serverUsers);
    }

    /**
     * `handle_focus` with the kept selection checked against the rebuilt list:
     * a selection whose index still holds the selected policy is kept, as the
     * focus handler's documentation promises; any other held policy or index
     * (out of range, pointing at a different policy, or left over when the user
     * has no policies any more) falls back to the sentinel. The selection then
     * refers to the rebuilt list and is always usable by `handle_query`.
     */
    method HandleFocusRevalidated(userId: string, sessionId: string, serverUsers: map<string, ServerUser>)
      requires userId in serverUsers
      modifies this
      ensures this.userId == userId && this.sessionId == sessionId && isInitialized
      ensures firstName == serverUsers[userId].firstName && lastName == serverUsers[userId].lastName
      ensures policyList == PoliciesOf(serverUsers[userId])
      ensures numberPolicies == |policyList| == |serverUsers[userId].policies|
      ensures currentPolicy == if numberPolicies > 0 then Some(NoneName) else old(currentPolicy)
      ensures !old(isInitialized) ==> selectedPolicy == NoneSentinel && selectedPolicyIndex == None
      ensures old(isInitialized) && old(selectedPolicyIndex).Some? && old(selectedPolicyIndex).value < |policyList|
              && old(selectedPolicy) == Chosen(policyList[old(selectedPolicyIndex).value]) ==>
        selectedPolicy == old(selectedPolicy) && selectedPolicyIndex == old(selectedPolicyIndex)
      ensures old(isInitialized) && (old(selectedPolicy).Chosen? || old(selectedPolicyIndex).Some?)
              && !(old(selectedPolicyIndex).Some? && old(selectedPolicyIndex).value < |policyList|
                   && old(selectedPolicy) == Chosen(policyList[old(selectedPolicyIndex).value])) ==>
        selectedPolicy == NoneSentinel && selectedPolicyIndex == None
      ensures (selectedPolicy == old(selectedPolicy) && selectedPolicyIndex == old(selectedPolicyIndex))
              || (selectedPolicy == NoneSentinel && selectedPolicyIndex == None)
      ensures SelectionConsistent() && SelectionUsable()
      ensures fetchedEmails == old(fetchedEmails) && currentEmailIndex == old(currentEmailIndex)
    {
      HandleFocus(userId, sessionId, serverUsers);
      if selectedPolicy.Chosen? || selectedPolicyIndex.Some? {
        if !(selectedPolicyIndex.Some? && selectedPolicyIndex.value < |policyList|
             && selectedPolicy == Chosen(policyList[selectedPolicyIndex.value])) {
          selectedPolicy := NoneSentinel;
          selectedPolicyIndex := None;
        }
      }
    }

    /**
     * `handle_policy_selection`: the sentinel name clears the selection;
     * otherwise the first policy with that display name is selected together
     * with its index; a name no policy has changes nothing.
     */
    method HandlePolicySelection(name: string)
      modifies this`selectedPolicy, this`selectedPolicyIndex
      ensures name == NoneName ==> selectedPolicy == NoneSentinel && selectedPolicyIndex == None
      ensures name != NoneName && (exists i :: 0 <= i < |policyList| && policyList[i].printName == name) ==>
        && selectedPolicyIndex.Some?
        && selectedPolicyIndex.value < |policyList|
        && policyList[selectedPolicyIndex.value].printName == name
        && (forall j :: 0 <= j < selectedPolicyIndex.value ==> policyList[j].printName != name)
        && selectedPolicy == Chosen(policyList[selectedPolicyIndex.value])
        && (PolicyIsSelected() <==> numberPolicies > 0)
        && SelectionUsable()
      ensures name != NoneName && (forall i :: 0 <= i < |policyList| ==> policyList[i].printName != name) ==>
        selectedPolicy == old(selectedPolicy) && selectedPolicyIndex == old(selectedPolicyIndex)
      ensures name == NoneName ==> !PolicyIsSelected() && SelectionUsable()
      ensures old(SelectionUsable()) ==> SelectionUsable()
    {
      if name == NoneName {
        selectedPolicy := NoneSentinel;
        selectedPolicyIndex := None;
      } else {
        for index := 0 to |policyList|
          invariant forall j :: 0 <= j < index ==> policyList[j].printName != name
          invariant selectedPolicy == old(selectedPolicy) && selectedPolicyIndex == old(selectedPolicyIndex)
        {
          if policyList[index].printName == name {
            selectedPolicy := Chosen(policyList[index]);
            selectedPolicyIndex := Some(index);
            return;
          }
        }
      }
    }

    /**
     * `handle_clear_button_click`: empties the conversation memory and resets
     * the selection to the sentinel.
     */
    method HandleClearButtonClick(memory: Conversation.Memory)
      modifies this`selectedPolicy, this`selectedPolicyIndex, memory
      ensures memory.turns == []
      ensures selectedPolicy == NoneSentinel && selectedPolicyIndex == None
      ensures !PolicyIsSelected() && SelectionUsable()
    {
      memory.Clear();
      selectedPolicy := NoneSentinel;
      selectedPolicyIndex := None;
    }

    /**
     * `handle_fetch_emails` after the search: looks up the metadata of every
     * listed message, stores the records newest first with no bodies loaded and
     * the cursor at the first, and returns their summaries. A failure anywhere,
     * or an empty listing, leaves the cached list as it was.
     */
    method HandleFetchEmails(gmailAvailable: bool, listing: MailListing, metadataOf: string -> MetadataResult)
      returns (reply: FetchReply)
      modifies this`fetchedEmails, this`currentEmailIndex
      ensures !gmailAvailable ==> reply == FetchFailure(GmailUnavailable)
      ensures gmailAvailable && listing.ListingFailed? ==> reply == FetchFailure(listing.error)
      ensures gmailAvailable && listing.Listed? && listing.ids == [] ==> reply == NoneFound
      ensures gmailAvailable && listing.Listed? && listing.ids != [] ==>
        match CollectMetadata(listing.ids, metadataOf)
        case Err(e) => reply == FetchFailure(e)
        case Ok(records) =>
          && fresh(fetchedEmails)
          && fetchedEmails[..] == SortNewestFirst(records)
          && currentEmailIndex == 0
          && reply == FetchSuccess(|records|, Summaries(fetchedEmails[..]))
      ensures !reply.FetchSuccess? ==>
        fetchedEmails == old(fetchedEmails) && currentEmailIndex == old(currentEmailIndex)
      ensures reply.FetchSuccess? ==>
        && NewestFirst(fetchedEmails[..])
        && reply.count == fetchedEmails.Length
        && (forall i :: 0 <= i < fetchedEmails.Length ==> fetchedEmails[i].body == None)
    {
      if !gmailAvailable {
        return FetchFailure(GmailUnavailable);
      }
      if listing.ListingFailed? {
        return FetchFailure(listing.error);
      }
      var messages := listing.ids;
      if messages == [] {
        return NoneFound;
      }
      var emailList: seq<EmailRecord> := [];
      for i := 0 to |messages|
        invariant CollectMetadata(messages[..i], metadataOf) == Ok(emailList)
        invariant forall k :: 0 <= k < |emailList| ==> emailList[k].body == None
      {
        assert messages[..i + 1][..i] == messages[..i];
        var metadata := metadataOf(messages[i]);
        if metadata.MetadataFailed? {
          PrefixErrorPropagates(messages, i + 1, metadataOf);
          return FetchFailure(metadata.error);
        }
        emailList := emailList + [FromMetadata(metadata.metadata)];
      }
      assert messages[..|messages|] == messages;
      var sorted := SortNewestFirst(emailList);
      SortNewestFirstIsSorted(emailList);
      SortNewestFirstIsPermutation(emailList);
      fetchedEmails := new EmailRecord[|sorted|](k requires 0 <= k < |sorted| => sorted[k]);
      currentEmailIndex := 0;
      reply := FetchSuccess(|emailList|, Summaries(sorted));
      assert fetchedEmails[..] == sorted;
      forall i | 0 <= i < |sorted| ensures sorted[i].body == None {
        assert sorted[i] in multiset(sorted);
        assert sorted[i] in multiset(emailList);
      }
    }

    /**
     * `handle_select_email`: fails without touching anything when no email is
     * cached or the index is out of range; otherwise loads the body of that
     * email only if it was never loaded, stores it in place, and moves the
     * cursor to it.
     */
    method HandleSelectEmail(emailIndex: int, fetchBody: string -> BodyResult) returns (reply: SelectReply)
      modifies this`currentEmailIndex, fetchedEmails
      ensures fetchedEmails == old(fetchedEmails)
      ensures fetchedEmails.Length == 0 ==> reply == SelectFailure(NoEmailsFetched)
      ensures fetchedEmails.Length > 0 && !(0 <= emailIndex < fetchedEmails.Length) ==>
        reply == SelectFailure(InvalidEmailIndex)
      ensures reply.SelectFailure? ==>
        fetchedEmails[..] == old(fetchedEmails[..]) && currentEmailIndex == old(currentEmailIndex)
      ensures 0 <= emailIndex < fetchedEmails.Length ==>
        var before := old(fetchedEmails[emailIndex]);
        && fetchedEmails[emailIndex] ==
             (if before.body == None then before.(body := Some(BodyText(fetchBody(before.id)))) else before)
        && (forall j :: 0 <= j < fetchedEmails.Length && j != emailIndex ==> fetchedEmails[j] == old(fetchedEmails[j]))
        && currentEmailIndex == emailIndex
        && reply == SelectSuccess(EmailView(before.sender, before.subject, before.date, fetchedEmails[emailIndex].body.value))
      ensures 0 <= emailIndex < fetchedEmails.Length && old(fetchedEmails[emailIndex].body).Some? ==>
        fetchedEmails[..] == old(fetchedEmails[..])
    {
      if fetchedEmails.Length == 0 {
        return SelectFailure(NoEmailsFetched);
      }
      if emailIndex < 0 || emailIndex >= fetchedEmails.Length {
        return SelectFailure(InvalidEmailIndex);
      }
      var email := fetchedEmails[emailIndex];
      if email.body == None {
        email := email.(body := Some(BodyText(fetchBody(email.id))));
        fetchedEmails[emailIndex] := email;
      }
      currentEmailIndex := emailIndex;
      reply := SelectSuccess(EmailView(email.sender, email.subject, email.date, email.body.value));
    }
  }

  /**
   * In a session whose selection is usable, `policy_is_selected` holds exactly
   * when the user has policies and a policy object is selected with an index;
   * then reading the policy list at that index, as `handle_query` does, stays
   * in range and yields the selected policy. The sentinel test alone does not
   * exclude the initial `None` selection: usability is what rules it out.
   */
  lemma PolicyIsSelectedMeans(s: SessionState)
    requires s.SelectionUsable()
    ensures s.PolicyIsSelected() <==>
      s.numberPolicies > 0 && s.selectedPolicyIndex.Some? && s.selectedPolicy.Chosen?
    ensures s.PolicyIsSelected() ==>
      s.selectedPolicyIndex.value < |s.policyList| &&
      s.policyList[s.selectedPolicyIndex.value] == s.selectedPolicy.policy
  {
  }

  /**
   * Focus keeps a selection made before it even when the refocused user has
   * fewer policies: here the second of two policies is selected and the user
   * is refocused with only the first, after which the selection still counts
   * while its index is past the end of the rebuilt list (so `handle_query`
   * would index out of range).
   */
  method StaleSelectionAfterRefocus() returns (session: SessionState)
    ensures session.PolicyIsSelected()
    ensures session.selectedPolicyIndex.value >= |session.policyList|
    ensures !session.SelectionUsable()
  {
    var a := ServerPolicy("1", "a.pdf", "auto", "a", "carrier", "pdf", false, "", None);
    var b := ServerPolicy("2", "b.pdf", "auto", "b", "carrier", "pdf", false, "", None);
    session := new SessionState();
    session.HandleFocus("u", "s", map["u" := ServerUser("First", "Last", [a, b])]);
    assert session.policyList[0].printName == "a" && session.policyList[1].printName == "b";
    session.HandlePolicySelection("b");
    session.HandleFocus("u", "s", map["u" := ServerUser("First", "Last", [a])]);
  }

  /**
   * The corrected focus on the same session, refocused after the user deleted
   * every policy: the left-over selection of the second policy is dropped.
   */
  method RevalidatedFocusDropsSelectionWhenNoPoliciesRemain() returns (session: SessionState)
    ensures session.numberPolicies == 0
    ensures session.selectedPolicy == NoneSentinel && session.selectedPolicyIndex == None
  {
    var a := ServerPolicy("1", "a.pdf", "auto", "a", "carrier", "pdf", false, "", None);
    var b := ServerPolicy("2", "b.pdf", "auto", "b", "carrier", "pdf", false, "", None);
    session := new SessionState();
    session.HandleFocus("u", "s", map["u" := ServerUser("First", "Last", [a, b])]);
    assert session.policyList[0].printName == "a" && session.policyList[1].printName == "b";
    session.HandlePolicySelection("b");
    session.HandleFocusRevalidated("u", "s", map["u" := ServerUser("First", "Last", [])]);
  }
}
