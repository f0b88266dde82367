/**
 * How the client's unwrapping relates to the server's: the server applies the
 * same envelope checks (with isset in place of truthiness) and then filters
 * the records the client would hand to the renderer unfiltered. The two
 * sides decode the blob with different decoders (`Html::decodeEntities` keeps
 * markup that DOMParser's `textContent` drops), so each statement names the
 * agreement of the two decoders on this response's blob that it relies on.
 */
module ServerClientAgreement {
  import opened Optional
  import opened JsonValue
  import PhpSemantics
  import Js = JsSemantics
  import Server = QuizParserService
  import Client = QuizRendererDecoding
  import Filtering

  /** The quiz blob of a non-empty response: its first item's `field_quiz_data` (NULL when unset). */
  function Blob(apiData: Json): (r: Json)
    requires apiData.Arr? && |apiData.elems| > 0
    ensures Js.Get(apiData.elems[0], "field_quiz_data").Some? ==> r == Js.Get(apiData.elems[0], "field_quiz_data").value
  {
    PhpSemantics.Index(apiData.elems[0], "field_quiz_data")
  }

  /**
   * Whatever the client accepts, the server accepts too and keeps the valid
   * records in order, provided the server's decoder gives for this response's
   * blob what the client's decoder gives.
   */
  lemma ClientAcceptedImpliesServerFiltered(apiData: Json, serverDecode: Json -> Decoded, clientDecode: Json -> Decoded,
                                            records: seq<Json>)
    requires apiData.Arr? && |apiData.elems| > 0
    requires Client.ParseQuizData(apiData, clientDecode) == Some(records)
    requires serverDecode(Blob(apiData)) == clientDecode(Blob(apiData))
    ensures PhpSemantics.IsArray(apiData)
    ensures Server.ParsedQuestions(apiData, serverDecode) == Some(Filtering.FilterMap(records, Server.QuestionOf))
  {
    var node := apiData.elems[0];
    assert PhpSemantics.Values(apiData)[0] == node;
    assert PhpSemantics.Index(node, "field_quiz_data") == Js.Get(node, "field_quiz_data").value;
  }

  /** The server also takes a JSON object as the question list, which the client refuses. */
  lemma ObjectPayloadDiverges(apiData: Json, serverDecode: Json -> Decoded, clientDecode: Json -> Decoded,
                              fields: seq<(string, Json)>)
    requires apiData.Arr? && |apiData.elems| > 0
    requires Js.Truthy(Js.Get(apiData.elems[0], "field_quiz_data"))
    requires serverDecode(Blob(apiData)) == Decoded(Obj(fields))
    requires clientDecode(Blob(apiData)) == Decoded(Obj(fields))
    ensures Client.ParseQuizData(apiData, clientDecode) == None
    ensures Server.ParsedQuestions(apiData, serverDecode).Some?
  {
    var node := apiData.elems[0];
    assert PhpSemantics.Values(apiData)[0] == node;
    assert PhpSemantics.Index(node, "field_quiz_data") == Js.Get(node, "field_quiz_data").value;
  }
}
