/**
 How the two versions of the screen relate: their search filters select the
 same records, so their visible lists hold the same records and differ only
 in order (one sorts on lower-cased names, the other on names as stored).
 */
module Variants {
  import opened Values
  import opened Text
  import opened Query
  import opened Items
  import LocalApp
  import SyncApp

  /** For a non-empty term, `pd && pd.includes(s)` and `(pd || '').includes(s)` agree. */
  lemma DateTestsAgree(purchaseDate: Option<string>, s: string)
    requires s != []
    ensures LocalApp.DateHas(purchaseDate, s) <==> Includes(purchaseDate.ValueOr(""), s)
  {
    if purchaseDate == Some("") || purchaseDate == None {
      assert !(s <= "");
      assert !Includes("", s);
    }
  }

  /** Both versions' location and search steps leave the same records, in
      the same order. */
  lemma {:induction false} MatchingAgrees(inventory: seq<Item>, activeTab: string, searchTerm: string)
    ensures LocalApp.Matching(inventory, activeTab, searchTerm) == SyncApp.Matching(inventory, activeTab, searchTerm)
  {
    if searchTerm != [] {
      var s := Lower(searchTerm);
      var xs := LocationStep(inventory, activeTab);
      forall k | 0 <= k < |xs| ensures LocalApp.TermHit(xs[k], s) == SyncApp.TermHit(xs[k], s) {
        DateTestsAgree(xs[k].purchaseDate, s);
      }
      FilterExt((x: Item) => LocalApp.TermHit(x, s), (x: Item) => SyncApp.TermHit(x, s), xs);
    }
  }

  /** Both versions show the same records, each as often; only the order may differ. */
  lemma VisibleSameRecords(inventory: seq<Item>, activeTab: string, searchTerm: string, sortOrder: string,
                           leq: (string, string) -> bool)
    ensures multiset(LocalApp.Visible(inventory, activeTab, searchTerm, sortOrder, leq))
         == multiset(SyncApp.Visible(inventory, activeTab, searchTerm, sortOrder, leq))
  {
    var a := LocalApp.Visible(inventory, activeTab, searchTerm, sortOrder, leq);
    var b := SyncApp.Visible(inventory, activeTab, searchTerm, sortOrder, leq);
    MatchingAgrees(inventory, activeTab, searchTerm);
    forall x: Item ensures multiset(a)[x] == multiset(b)[x] {
      if searchTerm != [] {
        DateTestsAgree(x.purchaseDate, Lower(searchTerm));
      }
    }
  }
}
