/** Worked examples: the links of a concrete page, computed by the model. */
module PageExamples {
  import opened Wrappers
  import opened JavaLang
  import opened LinkQuery
  import opened Paging

  /** `Integer.toString` of a single digit is that digit. */
  lemma DigitText(d: nat)
    requires d < 10
    ensures IntToString(d) == [DigitChar(d)]
  {
  }

  /** Page 2 of size 5 with no caller parameters and no sort: just `page` and `size`. */
  lemma ExampleQuery()
    ensures PageQuery([], 2, 5, None) == Success([("page", "2"), ("size", "5")])
  {
    DigitText(2);
    DigitText(5);
    assert IntToString(2) == "2";
    assert IntToString(5) == "5";
    var flat: seq<QueryParam> := Flatten([]);
    assert flat == [];
    assert PagingParams(2, 5, None) == [("page", "2"), ("size", "5")];
    assert flat + PagingParams(2, 5, None) == [("page", "2"), ("size", "5")];
  }

  /** The query text of those two parameters. */
  lemma ExampleRender()
    ensures Render([("page", "2"), ("size", "5")]) == "page=2&size=5"
  {
    var q := [("page", "2"), ("size", "5")];
    var pieces := seq(|q|, i requires 0 <= i < |q| => q[i].0 + "=" + q[i].1);
    assert pieces[0] == "page=2";
    assert pieces[1] == "size=5";
    assert pieces == ["page=2", "size=5"];
    assert pieces[1..] == ["size=5"];
    assert Join(pieces, '&') == "page=2" + "&" + "size=5";
  }

  /** The `self` link of page 2 of size 5 under any base URI: the base, then `?page=2&size=5`. */
  lemma ExampleSelfLink(baseUri: string)
    ensures BuildPageLink(2, 5, None, Self, [], baseUri) == Success(Link(baseUri + "?page=2&size=5", "self"))
  {
    var q := [("page", "2"), ("size", "5")];
    ExampleQuery();
    ExampleRender();
    assert Href(baseUri, q) == baseUri + "?" + "page=2&size=5";
    assert "?" + "page=2&size=5" == "?page=2&size=5";
    assert baseUri + "?" + "page=2&size=5" == baseUri + ("?" + "page=2&size=5");
    assert RelName(Self) == "self";
    assert BuildPageLink(2, 5, None, Self, [], baseUri) == Success(Link(Href(baseUri, q), RelName(Self)));
  }
}
