/**
 * The page and the route handlers together: what a request the page builds
 * does to the table once the handler has it.
 */
module Flows {
  import opened Wrappers
  import opened Json
  import opened Text
  import opened Store
  import Page
  import Route

  /**
   * Confirming a delete on the page removes exactly the chosen row: the id
   * the handler reads back from the URL parses to the id the page wrote.
   */
  lemma DeleteRemovesChosenRow(s: Store, id: int)
    ensures var url := Page.DeleteRequestFor(true, id).value;
      var r := Route.HandleDelete(s, Page.DeleteUrlId(url), DbOk);
      && r.1.status == 200
      && r.0.rows.Keys == s.rows.Keys - {id}
      && (forall k :: k in r.0.rows ==> r.0.rows[k] == s.rows[k])
  {
    var url := Page.DeleteRequestFor(true, id).value;
    ParseIntOfDecimal(id);
    assert IntToDecimal(id) != "" by {
      if id < 0 {
        assert |IntToDecimal(id)| >= 1;
      }
    }
    assert Page.DeleteUrlId(url) == Some(IntToDecimal(id));
  }

  /**
   * Saving an edited company updates that company's row: the page sends a
   * PUT carrying the row's id, and the handler writes every submitted form
   * field to that row and answers with it.
   */
  lemma EditUpdatesSelectedRow(s: Store, p: Page.PageState, formData: Record, k: int)
    requires Valid(s) && k in s.rows
    requires p.selected == Some(s.rows[k])
    ensures var req := Page.SaveRequestFor(p, formData);
      var r := Route.HandlePut(s, Route.Parsed(req.body), DbOk);
      && req.verb == Page.Put
      && r.1.status == 200
      && r.1.body == Some(JObj(r.0.rows[k]))
      && (forall f :: f != "id" && f in formData ==> Get(r.0.rows[k], f) == Some(formData[f]))
      && (forall f :: f != "id" && f !in formData ==> Get(r.0.rows[k], f) == Get(s.rows[k], f))
      && (forall j :: j in s.rows && j != k ==> r.0.rows[j] == s.rows[j])
  {
    var req := Page.SaveRequestFor(p, formData);
    assert Get(req.body, "id") == Some(JNum(k));
    assert Route.IdKey(Get(req.body, "id")) == Some(k);
    forall f | f != "id"
      ensures (f in req.body <==> f in formData) && (f in formData ==> req.body[f] == formData[f])
    {
      assert Get(req.body, f) == Get(formData, f);
    }
  }

  /**
   * Saving a new company creates one row: the page sends a POST with the
   * form data, and the handler stores it under a fresh id.
   */
  lemma AddCreatesRow(s: Store, p: Page.PageState, formData: Record)
    requires Valid(s) && p.selected == None
    ensures var req := Page.SaveRequestFor(p, formData);
      var r := Route.HandlePost(s, Route.Parsed(req.body), DbOk);
      && req.verb == Page.Post
      && r.1.status == 200
      && r.0.rows.Keys == s.rows.Keys + {s.nextId}
      && s.nextId !in s.rows
      && (forall f :: f != "id" && f !in Route.TimestampFields ==> Get(r.0.rows[s.nextId], f) == Get(formData, f))
  {
  }
}
