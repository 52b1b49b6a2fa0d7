/** The search query builder: include terms combined by AND or OR, then
    every exclude term as a `-term` token. */
module Query {

  import opened Wrappers
  import opened Strings

  /** Python's truthiness of an optional list: `None` and `[]` both mean
      "no terms". */
  function Terms(terms: Option<seq<string>>): seq<string>
  {
    match terms
    case None => []
    case Some(ts) => ts
  }

  /** `f"-{term.strip()}"`. */
  function DashTerm(term: string): string
  {
    "-" + Strip(term)
  }

  function DashTerms(terms: seq<string>): seq<string>
  {
    seq(|terms|, i requires 0 <= i < |terms| => DashTerm(terms[i]))
  }

  /** The include part of the query, if any: the terms joined by spaces in
      AND mode, by " OR " inside parentheses in OR mode, with the mode
      compared upper-cased; nothing in any other mode. */
  function IncludePart(includeTerms: seq<string>, mode: string): seq<string>
  {
    if includeTerms == [] then []
    else if Upper(mode) == "AND" then [Join(includeTerms, " ")]
    else if Upper(mode) == "OR" then ["(" + Join(includeTerms, " OR ") + ")"]
    else []
  }

  /** The exclude part of the query, if any. */
  function ExcludePart(excludeTerms: seq<string>): seq<string>
  {
    if excludeTerms == [] then [] else [Join(DashTerms(excludeTerms), " ")]
  }

  /** What precedes the exclude part in the query: the include part and
      the space after it, or nothing. */
  function IncludePrefix(includeTerms: seq<string>, mode: string): string
  {
    var inc := IncludePart(includeTerms, mode);
    if inc == [] then "" else inc[0] + " "
  }

  /** The query as it reads: the include part, then one space, then the
      exclude part; an absent part leaves no space, and with neither part
      the query is empty. */
  function QueryString(includeTerms: Option<seq<string>>, excludeTerms: Option<seq<string>>, mode: string): string
  {
    var inc := IncludePart(Terms(includeTerms), mode);
    var exc := ExcludePart(Terms(excludeTerms));
    if exc == [] then (if inc == [] then "" else inc[0])
    else IncludePrefix(Terms(includeTerms), mode) + exc[0]
  }

  /** `build_query`: collect the parts in a list, then join them. */
  method BuildQuery(includeTerms: Option<seq<string>>, excludeTerms: Option<seq<string>>, mode: string)
    returns (query: string)
    ensures query == QueryString(includeTerms, excludeTerms, mode)
  {
    var parts: seq<string> := [];
    var inc := Terms(includeTerms);
    if inc != [] {
      var upper := Upper(mode);
      if upper == "AND" {
        parts := parts + [Join(inc, " ")];
      } else if upper == "OR" {
        parts := parts + ["(" + Join(inc, " OR ") + ")"];
      }
    }
    assert parts == IncludePart(inc, mode);
    var exc := Terms(excludeTerms);
    if exc != [] {
      var dashed: seq<string> := [];
      for i := 0 to |exc|
        invariant |dashed| == i
        invariant forall k :: 0 <= k < i ==> dashed[k] == DashTerm(exc[k])
      {
        dashed := dashed + [DashTerm(exc[i])];
      }
      assert dashed == DashTerms(exc);
      parts := parts + [Join(dashed, " ")];
    }
    JoinParts(includeTerms, excludeTerms, mode);
    query := Join(parts, " ");
  }

  /** Joining the list of parts by spaces, as `build_query` does, gives the
      query as it reads. */
  lemma JoinParts(includeTerms: Option<seq<string>>, excludeTerms: Option<seq<string>>, mode: string)
    ensures Join(IncludePart(Terms(includeTerms), mode) + ExcludePart(Terms(excludeTerms)), " ")
            == QueryString(includeTerms, excludeTerms, mode)
  {
    var inc := IncludePart(Terms(includeTerms), mode);
    var exc := ExcludePart(Terms(excludeTerms));
    if inc == [] && exc == [] {
      assert inc + exc == [];
    } else if inc == [] {
      assert inc + exc == [exc[0]];
    } else if exc == [] {
      assert inc + exc == [inc[0]];
    } else {
      assert inc + exc == [inc[0], exc[0]];
      assert [inc[0], exc[0]][1..] == [exc[0]];
    }
  }

  /** The mode is compared without regard to case, and any mode other than
      AND or OR drops the include terms altogether. */
  lemma ModeIgnoresCase(includeTerms: Option<seq<string>>, excludeTerms: Option<seq<string>>, mode1: string, mode2: string)
    requires Upper(mode1) == Upper(mode2)
    ensures QueryString(includeTerms, excludeTerms, mode1) == QueryString(includeTerms, excludeTerms, mode2)
  {
  }

  lemma UnknownModeDropsInclude(includeTerms: Option<seq<string>>, excludeTerms: Option<seq<string>>, mode: string)
    requires Upper(mode) != "AND" && Upper(mode) != "OR"
    ensures QueryString(includeTerms, excludeTerms, mode) == QueryString(None, excludeTerms, mode)
  {
  }

  /** In AND mode include term `i` sits in the query at its place in the
      space-separated join of the terms, unstripped. */
  lemma IncludeTermAtAnd(includeTerms: Option<seq<string>>, excludeTerms: Option<seq<string>>, mode: string, i: nat)
    requires i < |Terms(includeTerms)|
    requires Upper(mode) == "AND"
    ensures var q := QueryString(includeTerms, excludeTerms, mode);
            var inc := Terms(includeTerms);
            var at := Offset(inc, " ", i);
            at + |inc[i]| <= |q| && q[at..at + |inc[i]|] == inc[i]
  {
    var q := QueryString(includeTerms, excludeTerms, mode);
    var inc := Terms(includeTerms);
    var block := Join(inc, " ");
    var exc := ExcludePart(Terms(excludeTerms));
    var tail := if exc == [] then "" else " " + exc[0];
    assert IncludePart(inc, mode) == [block];
    assert q == block + tail;
    JoinAt(inc, " ", i);
    var at := Offset(inc, " ", i);
    SliceOfPrefix(block, tail, at, at + |inc[i]|);
  }

  /** The OR block followed by any text: term `i` sits after the opening
      parenthesis at its place in the " OR "-separated join. */
  lemma OrBlockAt(inc: seq<string>, tail: string, i: nat)
    requires i < |inc|
    ensures var q := "(" + Join(inc, " OR ") + ")" + tail;
            var at := 1 + Offset(inc, " OR ", i);
            q[0] == '(' && at + |inc[i]| <= |q| && q[at..at + |inc[i]|] == inc[i]
  {
    var j := Join(inc, " OR ");
    var q := "(" + j + ")" + tail;
    assert q == ("(" + j) + (")" + tail);
    JoinAtAfter("(", inc, " OR ", i);
    var at := 1 + Offset(inc, " OR ", i);
    SliceOfPrefix("(" + j, ")" + tail, at, at + |inc[i]|);
  }

  /** In OR mode the query opens with a parenthesis, and include term `i`
      follows it at its place in the " OR "-separated join of the terms. */
  lemma IncludeTermAtOr(includeTerms: Option<seq<string>>, excludeTerms: Option<seq<string>>, mode: string, i: nat)
    requires i < |Terms(includeTerms)|
    requires Upper(mode) == "OR"
    ensures var q := QueryString(includeTerms, excludeTerms, mode);
            var inc := Terms(includeTerms);
            var at := 1 + Offset(inc, " OR ", i);
            q[0] == '(' && at + |inc[i]| <= |q| && q[at..at + |inc[i]|] == inc[i]
  {
    var inc := Terms(includeTerms);
    var exc := ExcludePart(Terms(excludeTerms));
    var tail := if exc == [] then "" else " " + exc[0];
    var block := "(" + Join(inc, " OR ") + ")";
    assert IncludePart(inc, mode) == [block];
    assert QueryString(includeTerms, excludeTerms, mode) == block + tail;
    OrBlockAt(inc, tail, i);
  }

  /** The exclude part after any prefix: each "-term" at its place, a
      space after all but the last, and nothing after the last. */
  lemma ExcludeBlockAt(prefix: string, exc: seq<string>, i: nat)
    requires i < |exc|
    ensures var q := prefix + Join(DashTerms(exc), " ");
            var at := |prefix| + Offset(DashTerms(exc), " ", i);
            var len := 1 + |Strip(exc[i])|;
            && at + len <= |q|
            && q[at..at + len] == "-" + Strip(exc[i])
            && (i + 1 < |exc| ==> at + len + 1 <= |q| && q[at + len..at + len + 1] == " ")
            && (i + 1 == |exc| ==> at + len == |q|)
  {
    var dashed := DashTerms(exc);
    var q := prefix + Join(dashed, " ");
    JoinAtAfter(prefix, dashed, " ", i);
    assert dashed[i] == "-" + Strip(exc[i]);
    if i + 1 < |exc| {
      JoinSepAfter(prefix, dashed, " ", i);
    }
  }

  /** Exclude term `i` appears, in order, as "-" followed by the term with
      its surrounding white space stripped, after the include part and one
      space; consecutive exclude terms are separated by one space and the
      last one ends the query. */
  lemma ExcludeTermAt(includeTerms: Option<seq<string>>, excludeTerms: Option<seq<string>>, mode: string, i: nat)
    requires i < |Terms(excludeTerms)|
    ensures var q := QueryString(includeTerms, excludeTerms, mode);
            var exc := Terms(excludeTerms);
            var at := |IncludePrefix(Terms(includeTerms), mode)| + Offset(DashTerms(exc), " ", i);
            var len := 1 + |Strip(exc[i])|;
            && at + len <= |q|
            && q[at..at + len] == "-" + Strip(exc[i])
            && (i + 1 < |exc| ==> at + len + 1 <= |q| && q[at + len..at + len + 1] == " ")
            && (i + 1 == |exc| ==> at + len == |q|)
  {
    ExcludeBlockAt(IncludePrefix(Terms(includeTerms), mode), Terms(excludeTerms), i);
  }

  /** Sample queries, and the query the form sends when the exclude
      field is left empty: splitting "" on commas gives one empty term,
      which becomes a lone "-". */
  lemma QueryExamples()
    ensures QueryString(Some(["a", "b"]), Some([]), "AND") == "a b"
    ensures QueryString(Some(["a", "b"]), Some([]), "OR") == "(a OR b)"
    ensures QueryString(Some(["a"]), Some(["b", "c"]), "AND") == "a -b -c"
    ensures QueryString(Some([]), Some([]), "AND") == ""
    ensures QueryString(None, None, "or") == ""
    ensures QueryString(Some(["a"]), Some([""]), "AND") == "a -"
  {
    assert Upper("AND") == "AND";
    assert Upper("OR") == "OR";
    assert Strip("b") == "b" && Strip("c") == "c" && Strip("") == "";
    assert DashTerm("b") == "-b" && DashTerm("c") == "-c" && DashTerm("") == "-";
    assert DashTerms(["b", "c"]) == ["-b", "-c"];
    assert DashTerms([""]) == ["-"];
    assert Join(["-b", "-c"], " ") == "-b -c";
  }
}
