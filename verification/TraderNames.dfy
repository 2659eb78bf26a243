/**
 The trader id a connection goes by (normalizeTraderIDForProtocol in
 internal/api/ws/handler.go), over ASCII text.
 */
module TraderNames {
  const SUFFIX: string := "-cts-client"

  predicate IsSpace(c: char) {
    c == ' ' || '\t' <= c <= '\r'
  }

  /** strings.TrimSpace. */
  function Trim(s: string): (r: string)
    ensures r == "" <==> forall i :: 0 <= i < |s| ==> IsSpace(s[i])
    ensures r != "" ==> !IsSpace(r[0]) && !IsSpace(r[|r| - 1])
    ensures |r| == |s| ==> r == s
    ensures |r| <= |s|
    decreases |s|
  {
    if s == "" then s
    else if IsSpace(s[0]) then assert forall i :: 1 <= i < |s| ==> s[i] == s[1..][i - 1]; Trim(s[1..])
    else if IsSpace(s[|s| - 1]) then Trim(s[..|s| - 1])
    else s
  }

  function Lower(s: string): (r: string)
    ensures |r| == |s|
  {
    seq(|s|, i requires 0 <= i < |s| => if 'A' <= s[i] <= 'Z' then s[i] - 'A' + 'a' else s[i])
  }

  predicate EndsInSuffix(s: string) {
    |s| > |SUFFIX| && Lower(s)[|s| - |SUFFIX|..] == SUFFIX
  }

  function DropSuffix(norm: string): string {
    if EndsInSuffix(norm) then Trim(norm[..|norm| - |SUFFIX|]) else norm
  }

  function ProtocolTraderId(id: string): string {
    DropSuffix(Trim(id))
  }

  /** A certificate name that is not blank never becomes the empty id, which would read as "not registered". */
  lemma NeverBlank(id: string)
    ensures ProtocolTraderId(id) == "" <==> Trim(id) == ""
  {
    var norm := Trim(id);
    if EndsInSuffix(norm) {
      var rest := norm[..|norm| - |SUFFIX|];
      assert rest[0] == norm[0] && !IsSpace(rest[0]);
    }
  }

  /** Names that differ only in one client suffix share an id. */
  lemma SuffixIsDropped(id: string)
    requires Trim(id) == id && id != ""
    ensures ProtocolTraderId(id + SUFFIX) == id
    ensures !EndsInSuffix(id) ==> ProtocolTraderId(id) == id
  {
    NothingToTrim(id, SUFFIX);
    SuffixDropped(id);
  }

  lemma SuffixDropped(id: string)
    requires id != ""
    ensures DropSuffix(id + SUFFIX) == Trim(id)
  {
    LowerSuffix(id);
    assert (id + SUFFIX)[..|id|] == id;
  }

  lemma NothingToTrim(a: string, b: string)
    requires a != "" && b != "" && !IsSpace(a[0]) && !IsSpace(b[|b| - 1])
    ensures Trim(a + b) == a + b
  {
    var s := a + b;
    assert s[0] == a[0] && s[|s| - 1] == b[|b| - 1];
  }

  lemma LowerSuffix(id: string)
    ensures Lower(id + SUFFIX)[|id|..] == SUFFIX
  {
    var lower := Lower(id + SUFFIX)[|id|..];
    forall i | 0 <= i < |SUFFIX| ensures lower[i] == SUFFIX[i] {
      assert (id + SUFFIX)[|id| + i] == SUFFIX[i];
      assert !('A' <= SUFFIX[i] <= 'Z');
    }
  }
}
