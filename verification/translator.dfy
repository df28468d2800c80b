/**
 * The translation helpers: a menu string is looked up in the table of the
 * target language; a string with no entry is returned unchanged and logged,
 * once per language, in the untranslated-strings file.
 *
 * Files are parameters: a translation table is the decoded content of
 * `translations/<language>.json` (None when the file does not exist), and the
 * log is the decoded content of `translations/untranslated.json` (None when it
 * does not exist), a JSON object from language to a list of strings.
 */
module Translator {
  import opened Wrappers
  import opened Seqs
  import opened Dicts

  type Table = map<string, string>

  /** The decoded untranslated-strings file. */
  type Log = Dict<seq<string>>

  /** `load_translations(language)`: the table in the file, or `{}` when there is no file. */
  function LoadTranslations(file: Option<Table>): (t: Table)
    ensures file.None? ==> t == map[]
    ensures file.Some? ==> t == file.value
  {
    match file
    case None => map[]
    case Some(t) => t
  }

  /**
   * `log_untranslated(text, language)`: the content of the log file
   * afterwards. A missing file is created holding `{language: [text]}`; an
   * existing one gains an empty list for a new language, then `text` at the
   * end of the language's list unless it is already there, in which case the
   * file is not rewritten.
   */
  function LogUntranslated(file: Option<Log>, text: string, language: string): (r: Log)
    ensures language in Keys(r)
    ensures file.Some? ==> Keys(r) == if language in Keys(file.value) then Keys(file.value) else Keys(file.value) + [language]
  {
    match file
    case None =>
      assert Keys([(language, [text])]) == [language];
      [(language, [text])]
    case Some(data) =>
      var data' := if Get(data, language).None? then Set(data, language, []) else data;
      var logged := Get(data', language).GetOr([]);
      KeysSet(data, language, []);
      GetSet(data, language, [], language);
      KeysSet(data', language, logged + [text]);
      if text !in logged then Set(data', language, logged + [text]) else data
  }

  /** What `translate_text` returns, and the log file afterwards. */
  datatype Outcome = Outcome(text: string, log: Option<Log>)

  /**
   * `translate_text(text, language)`, given the table file of `language` and
   * the log file.
   */
  function TranslateText(text: string, language: string, table: Option<Table>, log: Option<Log>): (r: Outcome)
    ensures r.text == text || (table.Some? && text in table.value && r.text == table.value[text])
    ensures r.log == log || r.log == Some(LogUntranslated(log, text, language))
    ensures r.log != log ==> r.log.Some? && text in Get(r.log.value, language).GetOr([])
    ensures language == "English" || (table.Some? && text in table.value) ==> r.log == log
  {
    if language == "English" then Outcome(text, log)
    else
      var translations := LoadTranslations(table);
      if text !in translations then
        LogContains(log, text, language);
        Outcome(text, Some(LogUntranslated(log, text, language)))
      else Outcome(translations[text], log)
  }

  /**
   * Logging adds `text` to the end of the language's list when it is not
   * there yet (creating the list, and the file, when needed) and changes
   * nothing otherwise.
   */
  lemma LogSpec(file: Option<Log>, text: string, language: string)
    ensures var before := if file.None? then [] else Get(file.value, language).GetOr([]);
      LogUntranslated(file, text, language) ==
        if file.None? then [(language, [text])]
        else if text in before then file.value
        else Set(file.value, language, before + [text])
  {
    if file.Some? && Get(file.value, language).None? {
      SetTwice(file.value, language, [], [text]);
      GetSet(file.value, language, [], language);
    }
  }

  /** After logging, the text is in the language's list. */
  lemma LogContains(file: Option<Log>, text: string, language: string)
    ensures text in Get(LogUntranslated(file, text, language), language).GetOr([])
  {
    LogSpec(file, text, language);
    if file.Some? {
      var before := Get(file.value, language).GetOr([]);
      if text !in before {
        GetSet(file.value, language, before + [text], language);
      }
    }
  }

  /** Logging only touches the list of its own language. */
  lemma LogOtherLanguages(file: Log, text: string, language: string, other: string)
    requires other != language
    ensures Get(LogUntranslated(Some(file), text, language), other) == Get(file, other)
  {
    LogSpec(Some(file), text, language);
    var before := Get(file, language).GetOr([]);
    if text !in before {
      GetSet(file, language, before + [text], other);
    }
  }

  /** Logging the same text twice leaves the file as logging it once. */
  lemma LogIdempotent(file: Option<Log>, text: string, language: string)
    ensures var once := LogUntranslated(file, text, language);
      LogUntranslated(Some(once), text, language) == once
  {
    LogContains(file, text, language);
    LogSpec(Some(LogUntranslated(file, text, language)), text, language);
  }

  /** No list in the log holds the same string twice. */
  predicate NoRepeats(log: Log) {
    forall i :: 0 <= i < |log| ==>
      forall a, b :: 0 <= a < b < |log[i].1| ==> log[i].1[a] != log[i].1[b]
  }

  /** Storing a list free of repeats keeps a log free of repeats. */
  lemma SetKeepsNoRepeats(data: Log, language: string, logged: seq<string>)
    requires NoRepeats(data)
    requires forall a, b :: 0 <= a < b < |logged| ==> logged[a] != logged[b]
    ensures NoRepeats(Set(data, language, logged))
  {
    var r := Set(data, language, logged);
    assert forall i :: 0 <= i < |r| ==> r[i] == (language, logged) || r[i] == data[i];
  }

  /** A log whose languages are distinct and whose lists are free of repeats stays so. */
  lemma LogKeepsNoRepeats(file: Option<Log>, text: string, language: string)
    requires file.Some? ==> UniqueKeys(file.value) && NoRepeats(file.value)
    ensures UniqueKeys(LogUntranslated(file, text, language))
    ensures NoRepeats(LogUntranslated(file, text, language))
  {
    LogSpec(file, text, language);
    if file.Some? {
      var data := file.value;
      var before := Get(data, language).GetOr([]);
      if text !in before {
        SetUnique(data, language, before + [text]);
        assert forall a, b :: 0 <= a < b < |before| ==> before[a] != before[b] by {
          if Get(data, language).Some? {
            var i :| 0 <= i < |data| && data[i] == (language, before);
            assert NoRepeats(data);
          }
        }
        SetKeepsNoRepeats(data, language, before + [text]);
      }
    }
  }

  /** English text is never looked up, logged or changed. */
  lemma TranslateEnglish(text: string, table: Option<Table>, log: Option<Log>)
    ensures TranslateText(text, "English", table, log) == Outcome(text, log)
  {
  }

  /** A string with an entry is replaced by it, and the log is left alone. */
  lemma TranslateHit(text: string, language: string, table: Table, log: Option<Log>)
    requires language != "English" && text in table
    ensures TranslateText(text, language, Some(table), log) == Outcome(table[text], log)
  {
  }

  /**
   * A string with no entry, or a language with no table file, gives the
   * string back and logs it under the language.
   */
  lemma TranslateMiss(text: string, language: string, table: Option<Table>, log: Option<Log>)
    requires language != "English" && (table.None? || text !in table.value)
    ensures var r := TranslateText(text, language, table, log);
      r.text == text && r.log == Some(LogUntranslated(log, text, language))
    ensures var r := TranslateText(text, language, table, log);
      text in Get(r.log.value, language).GetOr([])
  {
    LogContains(log, text, language);
  }
}
