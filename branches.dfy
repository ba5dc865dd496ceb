/** The branch registry (`Users`): each branch records the root of its
    latest version, and users subscribe to branches. */
module Branches {
  import opened Types

  type BranchId = int
  type UserId = int

  /** A row of the `branches` table. */
  datatype Branch = Branch(name: string, latestVersionId: FileId)

  /** A row of the `subscriptions` table. */
  datatype Subscription = Subscription(userId: UserId, branchId: BranchId)

  /** One line of a user's subscriptions view. */
  datatype SubscriptionView = SubscriptionView(branchId: BranchId, branchName: string, latestVersionId: FileId)

  /** `getLatestVersion`: the branch's latest root; an absent branch fails
      the `assert` on the missing row. */
  function Latest(branches: map<BranchId, Branch>, branchId: BranchId): (r: Result<FileId>)
    ensures r.Ok? <==> branchId in branches
    ensures r.Ok? ==> r.value == branches[branchId].latestVersionId
    ensures r.Err? ==> r.error == AssertionFailed
  {
    if branchId in branches then Ok(branches[branchId].latestVersionId) else Err(AssertionFailed)
  }

  /** The registry after `UPDATE branches SET latest_version_id = fileId
      WHERE id = branchId`: that one row changes, if it exists, and reading
      it back gives `fileId`; every other branch reads as before. */
  function WithLatest(branches: map<BranchId, Branch>, branchId: BranchId, fileId: FileId): (r: map<BranchId, Branch>)
    ensures r.Keys == branches.Keys
    ensures forall b :: b in r && b != branchId ==> r[b] == branches[b]
    ensures branchId in r ==> r[branchId].name == branches[branchId].name
    ensures forall b :: Latest(r, b) == if b == branchId && b in branches then Ok(fileId) else Latest(branches, b)
  {
    if branchId in branches then branches[branchId := branches[branchId].(latestVersionId := fileId)]
    else branches
  }

  function ViewOf(branchId: BranchId, branch: Branch): SubscriptionView
  {
    SubscriptionView(branchId, branch.name, branch.latestVersionId)
  }

  /** The join of `userId`'s subscription rows with `branches`, in row
      order: one line per subscription whose branch exists, carrying that
      branch's name and current latest root, and nothing else. */
  function SubscriptionsOf(subscriptions: seq<Subscription>, branches: map<BranchId, Branch>, userId: UserId)
    : (views: seq<SubscriptionView>)
    ensures |views| <= |subscriptions|
    ensures forall v :: v in views ==>
              v.branchId in branches && v == ViewOf(v.branchId, branches[v.branchId]) &&
              Subscription(userId, v.branchId) in subscriptions
    ensures forall s :: s in subscriptions && s.userId == userId && s.branchId in branches ==>
              ViewOf(s.branchId, branches[s.branchId]) in views
  {
    if subscriptions == [] then []
    else
      var s := subscriptions[0];
      var rest := SubscriptionsOf(subscriptions[1..], branches, userId);
      assert forall t :: t in subscriptions[1..] ==> t in subscriptions;
      if s.userId == userId && s.branchId in branches then [ViewOf(s.branchId, branches[s.branchId])] + rest
      else rest
  }

  /** `getSubscriptionsView`: an unknown user has none. */
  function SubscriptionsView(users: set<UserId>, subscriptions: seq<Subscription>, branches: map<BranchId, Branch>,
                             userId: UserId): (views: seq<SubscriptionView>)
    ensures userId !in users ==> views == []
    ensures forall v :: v in views ==>
              userId in users && v.branchId in branches && v == ViewOf(v.branchId, branches[v.branchId]) &&
              Subscription(userId, v.branchId) in subscriptions
    ensures forall s :: userId in users && s in subscriptions && s.userId == userId && s.branchId in branches ==>
              ViewOf(s.branchId, branches[s.branchId]) in views
  {
    if userId in users then SubscriptionsOf(subscriptions, branches, userId) else []
  }

  class Users {
    var users: set<UserId>
    var subscriptions: seq<Subscription>
    var branches: map<BranchId, Branch>

    constructor (users: set<UserId>, subscriptions: seq<Subscription>, branches: map<BranchId, Branch>)
      ensures this.users == users && this.subscriptions == subscriptions && this.branches == branches
    {
      this.users := users;
      this.subscriptions := subscriptions;
      this.branches := branches;
    }

    /** `getSubscriptionsView`: reads the tables and changes nothing. */
    method GetSubscriptionsView(userId: UserId) returns (views: seq<SubscriptionView>)
      ensures views == SubscriptionsView(users, subscriptions, branches, userId)
    {
      views := SubscriptionsView(users, subscriptions, branches, userId);
    }

    /** `getLatestVersion`: reads the tables and changes nothing. */
    method GetLatestVersion(branchId: BranchId) returns (r: Result<FileId>)
      ensures r == Latest(branches, branchId)
    {
      if branchId in branches {
        r := Ok(branches[branchId].latestVersionId);
      } else {
        r := Err(AssertionFailed);
      }
    }

    /** `setLatestVersion`: only the named branch's row changes. */
    method SetLatestVersion(branchId: BranchId, fileId: FileId)
      modifies this
      ensures users == old(users) && subscriptions == old(subscriptions)
      ensures branches == WithLatest(old(branches), branchId, fileId)
    {
      if branchId in branches {
        branches := branches[branchId := branches[branchId].(latestVersionId := fileId)];
      }
    }
  }
}
