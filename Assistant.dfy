/**
 * The dashboard's question-answering assistant. A question is first matched
 * against a small FAQ table by nearest-neighbour search over embeddings; when
 * the nearest FAQ question is close enough its answer is used, otherwise a
 * text generator answers. Both answers are cut to a word limit. The
 * embedding service, the vector index and the generator are not part of the
 * model: they are the functions `nearest` and `generate` given as inputs.
 */
module Assistant {
  import opened Truncation

  datatype Option<T> = None | Some(value: T)

  /** One FAQ row (columns `pergunta` and `resposta`). */
  datatype FaqEntry = FaqEntry(question: string, answer: string)

  /** Result of embedding a question and searching the index with k = 1:
      the distance to the nearest FAQ vector and that vector's position. */
  datatype Hit = Hit(distance: real, index: int)

  /** `max_palavras` and `limiar_distancia` defaults. */
  const DefaultMaxWords: int := 150
  const DefaultThreshold: real := 0.5

  const Placeholder: string := "Processando..."

  predicate UniqueQuestions(faq: seq<FaqEntry>) {
    forall i, j :: 0 <= i < j < |faq| ==> faq[i].question != faq[j].question
  }

  /** What the code demands of the search: when its distance passes the
      threshold, the position it reports is a row of the FAQ table. */
  predicate SearchAligned(hit: Hit, faq: seq<FaqEntry>, threshold: real) {
    hit.distance <= threshold ==> 0 <= hit.index < |faq|
  }

  /** Position of the first FAQ row whose question is `q`
      (`df[df['pergunta'] == q]['resposta'].values[0]`). */
  function FirstWithQuestion(faq: seq<FaqEntry>, q: string): (j: nat)
    requires exists k :: 0 <= k < |faq| && faq[k].question == q
    ensures j < |faq| && faq[j].question == q
    ensures forall k :: 0 <= k < j ==> faq[k].question != q
  {
    if faq[0].question == q then 0
    else
      assert exists k :: 0 <= k < |faq[1..]| && faq[1..][k].question == q by {
        var k :| 0 <= k < |faq| && faq[k].question == q;
        assert faq[1..][k - 1] == faq[k];
      }
      1 + FirstWithQuestion(faq[1..], q)
  }

  /** `buscar_resposta_faq`: no answer when the nearest FAQ question is
      farther than the threshold; otherwise the answer of the first row
      carrying the matched question, cut to `maxWords` words. */
  function FaqAnswer(question: string, faq: seq<FaqEntry>, nearest: string -> Hit,
                     maxWords: int, threshold: real): (r: Option<string>)
    requires SearchAligned(nearest(question), faq, threshold)
    ensures r.None? <==> nearest(question).distance > threshold
    ensures r.Some? ==>
      var idx := nearest(question).index;
      && (exists k :: 0 <= k < |faq| && faq[k].question == faq[idx].question)
      && r.value == LimitWords(faq[FirstWithQuestion(faq, faq[idx].question)].answer, maxWords)
    ensures r.Some? && UniqueQuestions(faq) ==>
      r.value == LimitWords(faq[nearest(question).index].answer, maxWords)
  {
    var hit := nearest(question);
    if hit.distance > threshold then None
    else
      var best := faq[hit.index].question;
      var j := FirstWithQuestion(faq, best);
      assert j <= hit.index;
      assert UniqueQuestions(faq) ==> j == hit.index;
      Some(LimitWords(faq[j].answer, maxWords))
  }

  /** The generator's reply to the question, asked with a budget of
      2 * maxWords tokens and cut to `maxWords` words; `None` when the call
      failed (raised). */
  function Generated(question: string, generate: (string, int) -> Option<string>,
                     maxWords: int): Option<string>
  {
    match generate(question, 2 * maxWords)
    case None => None
    case Some(reply) => Some(LimitWords(reply, maxWords))
  }

  /** `buscar_resposta_hibrida`: the FAQ answer when there is one and it is
      not empty; otherwise the generator's reply, cut to `maxWords` words.
      The FAQ is searched with the default threshold. `None` stands for the
      exception a failed generator call raises. */
  function HybridAnswer(question: string, faq: seq<FaqEntry>, nearest: string -> Hit,
                        generate: (string, int) -> Option<string>, maxWords: int): (r: Option<string>)
    requires SearchAligned(nearest(question), faq, DefaultThreshold)
    ensures nearest(question).distance > DefaultThreshold ==>
      r == Generated(question, generate, maxWords)
    ensures r == Generated(question, generate, maxWords)
         || (nearest(question).distance <= DefaultThreshold
             && exists j :: 0 <= j < |faq| && r == Some(LimitWords(faq[j].answer, maxWords)))
    ensures r.None? ==> generate(question, 2 * maxWords).None?
  {
    var fromFaq := FaqAnswer(question, faq, nearest, maxWords, DefaultThreshold);
    if fromFaq.Some? && fromFaq.value != "" then fromFaq
    else Generated(question, generate, maxWords)
  }

  /** The decision in terms of the FAQ table: a close enough match whose
      answer has at least one word is answered from the FAQ; a match whose
      answer is blank falls through to the generator, as does a distance
      above the threshold. */
  lemma {:induction false} HybridDecision(question: string, faq: seq<FaqEntry>, nearest: string -> Hit,
                                          generate: (string, int) -> Option<string>, maxWords: int)
    requires SearchAligned(nearest(question), faq, DefaultThreshold)
    requires maxWords >= 0
    ensures var hit := nearest(question);
      var r := HybridAnswer(question, faq, nearest, generate, maxWords);
      var generated := Generated(question, generate, maxWords);
      && (hit.distance > DefaultThreshold ==> r == generated)
      && (hit.distance <= DefaultThreshold ==>
            var j := FirstWithQuestion(faq, faq[hit.index].question);
            && (Words(faq[j].answer) != [] ==> r == Some(LimitWords(faq[j].answer, maxWords)))
            && (Words(faq[j].answer) == [] ==> r == generated))
  {
    var hit := nearest(question);
    if hit.distance <= DefaultThreshold {
      var j := FirstWithQuestion(faq, faq[hit.index].question);
      var cut := LimitWords(faq[j].answer, maxWords);
      assert FaqAnswer(question, faq, nearest, maxWords, DefaultThreshold) == Some(cut);
      LimitWordsBlank(faq[j].answer, maxWords);
      assert cut != "" <==> Words(faq[j].answer) != [];
    }
  }

  /** With a positive word limit an answer never holds more words than the
      limit, whichever path produced it. */
  lemma AnswerWithinLimit(question: string, faq: seq<FaqEntry>, nearest: string -> Hit,
                          generate: (string, int) -> Option<string>, maxWords: int)
    requires SearchAligned(nearest(question), faq, DefaultThreshold)
    requires maxWords >= 1
    ensures var r := HybridAnswer(question, faq, nearest, generate, maxWords);
      r.Some? ==> |Words(r.value)| <= maxWords
  {
    var fromFaq := FaqAnswer(question, faq, nearest, maxWords, DefaultThreshold);
    if fromFaq.Some? && fromFaq.value != "" {
      var idx := nearest(question).index;
      var j := FirstWithQuestion(faq, faq[idx].question);
      WordsWithinLimit(faq[j].answer, maxWords);
    } else {
      var reply := generate(question, 2 * maxWords);
      if reply.Some? {
        WordsWithinLimit(reply.value, maxWords);
      }
    }
  }

  /** A question that hits an FAQ entry exactly (distance 0) whose answer
      fits the limit gets that answer back, with its whitespace collapsed to
      single spaces. */
  lemma ExactMatchReturnsAnswer(question: string, faq: seq<FaqEntry>, nearest: string -> Hit,
                                generate: (string, int) -> Option<string>, maxWords: int)
    requires UniqueQuestions(faq)
    requires nearest(question).distance == 0.0 && 0 <= nearest(question).index < |faq|
    requires 0 < |Words(faq[nearest(question).index].answer)| <= maxWords
    ensures HybridAnswer(question, faq, nearest, generate, maxWords)
         == Some(Join(Words(faq[nearest(question).index].answer)))
  {
    var a := faq[nearest(question).index].answer;
    LimitWordsBlank(a, maxWords);
  }

  /** A conversation turn: the user's question and the assistant's answer. */
  datatype Turn = Turn(question: string, answer: string)

  /** The session's chat history (`st.session_state.chat_history`). */
  class ChatSession {
    var history: seq<Turn>

    constructor ()
      ensures history == []
    {
      history := [];
    }

    /** On a submission with a non-empty question: append a placeholder
        turn, compute the answer, then overwrite the last turn with it. The
        history grows by exactly one turn and earlier turns are untouched.
        When the answer is computed the placeholder does not survive; when
        computing it raised, the overwrite never happens and the placeholder
        turn stays in the history. */
    method Submit(submitted: bool, userInput: string, faq: seq<FaqEntry>, nearest: string -> Hit,
                  generate: (string, int) -> Option<string>)
      requires SearchAligned(nearest(userInput), faq, DefaultThreshold)
      modifies this
      ensures submitted && userInput != "" ==>
        var answer := HybridAnswer(userInput, faq, nearest, generate, DefaultMaxWords);
        && (answer.Some? ==> history == old(history) + [Turn(userInput, answer.value)])
        && (answer.None? ==> history == old(history) + [Turn(userInput, Placeholder)])
      ensures !(submitted && userInput != "") ==> history == old(history)
    {
      if submitted && userInput != "" {
        history := history + [Turn(userInput, Placeholder)];
        var resposta := HybridAnswer(userInput, faq, nearest, generate, DefaultMaxWords);
        if resposta.Some? {
          history := history[|history| - 1 := Turn(userInput, resposta.value)];
        }
      }
    }
  }
}
