/** One round of the program on its linked lists: events, then the update. */
module StatRun {
  import opened StatEchoes
  import opened StatFile
  import opened StatList
  import opened StatBook
  import opened StatUpdate
  import opened StatRounds

  /** The lists in memory after these events. */
  method Collect(history: seq<Event>) returns (book: Book)
    ensures fresh(book) && book.Valid() && book.doStat && Values(book.echoes) == Collected(history)
    ensures fresh(book.echoes) && fresh(NodesOf(book.echoes))
  {
    hide Values, Collected, PutStat, IsList, AllValid, AllApart;
    if history == [] {
      NoNodes();
      NoEvents();
      book := new Book();
    } else {
      var n := |history| - 1;
      book := Collect(history[..n]);
      book.PutStatistics(history[n].tag, history[n].addr, history[n].kind, history[n].len);
      AllFresh(book.echoes);
      CollectedNext(history, n);
      assert history[..n + 1] == history;
    }
  }

  /** What the lists in memory and the update do to the file is what a round does to it. */
  method RunRound(r: Round, file: Stored) returns (file': Stored)
    ensures file' == AfterRound(file, r)
  {
    hide Values, Collected, Updated, IsList, AllValid, AllApart, NodesOf;
    var book := Collect(r.history);
    NoEvents();
    ChainsNotEmpty(r.history);
    file' := UpdStat(book, file, r.now);
  }

  twostate lemma AllFresh(new echoes: seq<StatEcho>)
    requires forall e :: e in echoes ==> fresh(e)
    ensures fresh(echoes)
  {
    assert forall i :: 0 <= i < |echoes| ==> echoes[i] in echoes;
  }

  lemma NoNodes()
    ensures NodesOf([]) == {}
  {}

  lemma NoEvents()
    ensures Collected([]) == []
  {}

  lemma CollectedNext(history: seq<Event>, i: nat)
    requires i < |history|
    ensures Collected(history[..i + 1]) == PutStat(Collected(history[..i]), history[i])
  {
    assert history[..i + 1][..i] == history[..i];
  }
}
