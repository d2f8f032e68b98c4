/**
 * The notes window of a user (`NotesOrganizerApp`): the list of notes read
 * from the user's notes file, the positions the notes list box shows, the
 * note loaded into the editor, the editor's attachment list and the two
 * suggestion files. Searching, saving a note (replacing the selected one or
 * appending), deleting the selected notes and removing attachments update
 * that state in place; every change to the notes is written back to the
 * file, which is then read again.
 */
module NotesOrganizer {
  import opened Wrappers
  import opened Text
  import opened Seqs
  import opened NotesFormat
  import opened NotesSuggestions

  /** The text the search box shows while empty. */
  const Placeholder: string := "Search notes..."

  /** The category of a note saved with none. */
  const DefaultCategory: string := "General"

  // ---------------------------------------------------------------------------
  // Searching

  /** The text a query is looked up in: title, tags, category and content, lower-cased. */
  function SearchText(n: Note): string {
    Lower(Join([n.title, n.tags, n.category, n.content], " "))
  }

  predicate Hit(n: Note, q: string) {
    Contains(SearchText(n), q)
  }

  /** The positions of the notes whose search text holds `q`, in increasing order. */
  function Hits(notes: seq<Note>, q: string): (r: seq<nat>)
    ensures Increasing(r) && forall k :: 0 <= k < |r| ==> r[k] < |notes|
    ensures forall i: nat :: i in r <==> i < |notes| && Hit(notes[i], q)
    decreases |notes|
  {
    if |notes| == 0 then []
    else
      var n := |notes| - 1;
      var r := Hits(notes[..n], q);
      assert forall i :: 0 <= i < n ==> notes[..n][i] == notes[i];
      if Hit(notes[n], q) then r + [n] else r
  }

  /** What the list box shows for a query: every note for a blank one, else the hits. */
  function Matches(notes: seq<Note>, q: string): (r: seq<nat>)
    ensures Increasing(r) && forall k :: 0 <= k < |r| ==> r[k] < |notes|
    ensures q != "" ==> forall i: nat :: i in r <==> i < |notes| && Hit(notes[i], q)
    ensures q == "" ==> r == Range(|notes|)
  {
    if q == "" then Range(|notes|)
    else
      Hits(notes, q)
  }

  /**
   * The query as `search_notes` computes it: the box's text stripped and
   * lower-cased, replaced by "" when it equals the placeholder. The
   * comparison is with the placeholder as displayed, capital S included.
   */
  function QueryAsWritten(input: string): string {
    var q := Lower(Strip(input));
    if q == Placeholder then "" else q
  }

  /** A lower-cased text never equals the placeholder, so the check never fires. */
  lemma PlaceholderCheckIsDead(input: string)
    ensures QueryAsWritten(input) == Lower(Strip(input))
  {
    var q := Lower(Strip(input));
    assert Placeholder[0] == 'S';
    assert |q| > 0 ==> q[0] == LowerChar(Strip(input)[0]);
  }

  /** `strip()` leaves some text when a non-space character is present. */
  lemma StripNonBlank(s: string, i: nat)
    requires i < |s| && !IsSpace(s[i])
    ensures Strip(s) != ""
  {
    LStripShape(s);
    RStripShape(LStrip(s));
  }

  /** Searching with the placeholder shown looks for "search notes..." instead of listing all. */
  lemma PlaceholderIsSearched()
    ensures QueryAsWritten(Placeholder) != ""
  {
    PlaceholderCheckIsDead(Placeholder);
    StripNonBlank(Placeholder, 0);
  }

  /** The query with the placeholder compared in lower case, as intended. */
  function Query(input: string): (q: string)
    ensures q == "" || q == Lower(Strip(input))
  {
    var q := Lower(Strip(input));
    if q == Lower(Placeholder) then "" else q
  }

  /** The placeholder, with or without surrounding blanks, selects every note. */
  lemma PlaceholderIgnored(notes: seq<Note>, input: string)
    requires Strip(input) == Placeholder
    ensures Query(input) == ""
    ensures Matches(notes, Query(input)) == Range(|notes|)
  {
  }

  /** The loop of `search_notes`, appending the position of each note that hits. */
  method FindHits(notes: seq<Note>, q: string) returns (r: seq<nat>)
    ensures r == Hits(notes, q)
  {
    r := [];
    var i := 0;
    while i < |notes|
      invariant 0 <= i <= |notes|
      invariant r == Hits(notes[..i], q)
    {
      assert notes[..i + 1][..i] == notes[..i];
      if Contains(SearchText(notes[i]), q) {
        r := r + [i];
      }
      i := i + 1;
    }
    assert notes[..|notes|] == notes;
  }

  // ---------------------------------------------------------------------------
  // The notes file

  /** The text of consecutive writes. */
  function Concat(lines: seq<string>): string {
    if |lines| == 0 then "" else lines[0] + Concat(lines[1..])
  }

  lemma {:induction false} ConcatAppend(lines: seq<string>, x: string)
    ensures Concat(lines + [x]) == Concat(lines) + x
    decreases |lines|
  {
    if |lines| > 0 {
      assert (lines + [x])[1..] == lines[1..] + [x];
      ConcatAppend(lines[1..], x);
    }
  }

  /** The lines `save_all_notes` writes, one per note. */
  function Built(notes: seq<Note>): (lines: seq<string>)
    ensures |lines| == |notes|
    ensures forall k :: 0 <= k < |notes| ==> lines[k] == BuildNoteLine(notes[k])
  {
    seq(|notes|, k requires 0 <= k < |notes| => BuildNoteLine(notes[k]))
  }

  /** The parts of a text split at '\n', the separators put back: what `for line in f` yields. */
  function LinesOf(parts: seq<string>): seq<string>
    requires |parts| > 0
    decreases |parts|
  {
    if |parts| == 1 then (if parts[0] == "" then [] else [parts[0]])
    else [parts[0] + "\n"] + LinesOf(parts[1..])
  }

  /** The lines of a file's text, each with its '\n' except an unterminated last one. */
  function FileLines(text: string): seq<string> {
    LinesOf(SplitChar(text, '\n'))
  }

  lemma {:induction false} LinesOfJoin(parts: seq<string>)
    requires |parts| > 0
    ensures Concat(LinesOf(parts)) == Join(parts, "\n")
    decreases |parts|
  {
    if |parts| > 1 {
      LinesOfJoin(parts[1..]);
    }
  }

  /** Reading a file line by line loses and adds no character. */
  lemma FileLinesConcat(text: string)
    ensures Concat(FileLines(text)) == text
  {
    LinesOfJoin(SplitChar(text, '\n'));
    SplitCharJoin(text, '\n');
  }

  /** Lines that each end in their only '\n' read back as themselves. */
  lemma {:induction false} FileLinesOfLines(lines: seq<string>)
    requires forall k :: 0 <= k < |lines| ==> EndsWith(lines[k], '\n') && '\n' !in lines[k][..|lines[k]| - 1]
    ensures FileLines(Concat(lines)) == lines
    decreases |lines|
  {
    if |lines| > 0 {
      var body := lines[0][..|lines[0]| - 1];
      assert lines[0] == body + "\n";
      FileLinesOfLines(lines[1..]);
      SplitCharCons(body, Concat(lines[1..]), '\n');
      assert Concat(lines) == body + ['\n'] + Concat(lines[1..]);
    }
  }

  /** A line `reload_notes` parses: one that is not blank. */
  predicate NonBlank(line: string) {
    Strip(line) != ""
  }

  /**
   * The notes `reload_notes` reads from the lines of the file: each line
   * that is not blank, parsed. Parsing never fails, so the `except` branch is
   * never taken.
   */
  function NotesOfLines(lines: seq<string>): (notes: seq<Note>)
    ensures |notes| <= |lines|
  {
    FilterMap(lines, NonBlank, NoteOfLine)
  }

  /** A built line holds no '\n' but its last character, and is not blank. */
  lemma BuiltLineShape(n: Note)
    ensures '\n' !in BuildNoteLine(n)[..|BuildNoteLine(n)| - 1]
    ensures Strip(BuildNoteLine(n)) != ""
  {
    var enc := EncodeAll(Fields(n));
    forall k | 0 <= k < |enc|
      ensures '\n' !in enc[k]
    {
      EncodedField(Fields(n)[k]);
    }
    JoinNoChar(enc, FieldSep, '\n');
    var line := BuildNoteLine(n);
    assert line[..|line| - 1] == Join(enc, FieldSep);
    assert Join(enc, FieldSep) == enc[0] + FieldSep + Join(enc[1..], FieldSep);
    assert line[|enc[0]|] == '|';
    StripNonBlank(line, |enc[0]|);
  }

  /** Reading back the lines written for storable notes gives those notes. */
  lemma NotesOfBuilt(notes: seq<Note>)
    requires forall k :: 0 <= k < |notes| ==> Storable(notes[k])
    ensures NotesOfLines(Built(notes)) == notes
  {
    var lines := Built(notes);
    forall k | 0 <= k < |lines|
      ensures NonBlank(lines[k]) && NoteOfLine(lines[k]) == notes[k]
    {
      BuiltLineShape(notes[k]);
      ParseBuild(notes[k]);
    }
    FilterMapAll(lines, NonBlank, NoteOfLine);
  }

  /** The notes read from the file just saved. */
  function Reread(notes: seq<Note>): seq<Note> {
    NotesOfLines(FileLines(Concat(Built(notes))))
  }

  /**
   * Saving then reloading keeps the notes, when every one is storable (see
   * `NotesFormat.Storable`).
   */
  lemma ReloadAfterSave(notes: seq<Note>)
    requires forall k :: 0 <= k < |notes| ==> Storable(notes[k])
    ensures Reread(notes) == notes
  {
    var lines := Built(notes);
    forall k | 0 <= k < |lines|
      ensures EndsWith(lines[k], '\n') && '\n' !in lines[k][..|lines[k]| - 1]
    {
      BuiltLineShape(notes[k]);
    }
    FileLinesOfLines(lines);
    NotesOfBuilt(notes);
  }

  /** One more note gives one more line, its own. */
  lemma BuiltSnoc(notes: seq<Note>, i: nat)
    requires i < |notes|
    ensures Built(notes[..i + 1]) == Built(notes[..i]) + [BuildNoteLine(notes[i])]
  {
    var a, b := Built(notes[..i + 1]), Built(notes[..i]) + [BuildNoteLine(notes[i])];
    assert |a| == |b|;
    forall k | 0 <= k < |a| ensures a[k] == b[k] {
      assert notes[..i + 1][k] == notes[k];
      if k < i {
        assert notes[..i][k] == notes[k];
      }
    }
  }

  /** The loop of `save_all_notes`. */
  method WriteNotes(notes: seq<Note>) returns (text: string)
    ensures text == Concat(Built(notes))
  {
    text := "";
    var i := 0;
    while i < |notes|
      invariant 0 <= i <= |notes|
      invariant text == Concat(Built(notes[..i]))
    {
      BuiltSnoc(notes, i);
      ConcatAppend(Built(notes[..i]), BuildNoteLine(notes[i]));
      text := text + BuildNoteLine(notes[i]);
      i := i + 1;
    }
    assert notes[..|notes|] == notes;
  }

  /** The loop of `reload_notes`. */
  method ReadNotes(text: string) returns (notes: seq<Note>)
    ensures notes == NotesOfLines(FileLines(text))
  {
    var lines := FileLines(text);
    notes := [];
    var i := 0;
    while i < |lines|
      invariant 0 <= i <= |lines|
      invariant notes == NotesOfLines(lines[..i])
    {
      assert lines[..i + 1][..i] == lines[..i];
      if Strip(lines[i]) != "" {
        var note := ParseNoteLine(lines[i]);
        notes := notes + [note];
      }
      i := i + 1;
    }
    assert lines[..|lines|] == lines;
  }

  // ---------------------------------------------------------------------------
  // Saving a note and its suggestions

  /**
   * The notes after `save_note` places a new note: over the note the first
   * selected row shows when that row exists, nowhere when it does not, and
   * at the end when no row is selected.
   */
  function Upsert(notes: seq<Note>, filtered: seq<nat>, sel: seq<nat>, note: Note): (r: seq<Note>)
    requires forall k :: 0 <= k < |filtered| ==> filtered[k] < |notes|
    ensures |sel| == 0 ==> |r| == |notes| + 1 && r[|notes|] == note
    ensures |sel| > 0 ==> |r| == |notes|
    ensures |sel| > 0 && sel[0] < |filtered| ==> r[filtered[sel[0]]] == note
    ensures forall i :: 0 <= i < |notes| && !(|sel| > 0 && sel[0] < |filtered| && i == filtered[sel[0]]) ==>
              r[i] == notes[i]
  {
    if |sel| > 0 then
      if sel[0] < |filtered| then notes[filtered[sel[0]] := note] else notes
    else notes + [note]
  }

  /** `[tt.strip() for tt in tags.split(",") if tt.strip()]` */
  function TagNames(tags: string): (names: seq<string>)
    ensures forall k :: 0 <= k < |names| ==> names[k] != "" && Strip(names[k]) == names[k]
    ensures '\n' !in tags ==> forall k :: 0 <= k < |names| ==> '\n' !in names[k]
  {
    var parts := SplitChar(tags, ',');
    forall k | 0 <= k < |parts|
      ensures Strip(Strip(parts[k])) == Strip(parts[k])
      ensures '\n' !in tags ==> '\n' !in Strip(parts[k])
    {
      StripIdempotent(parts[k]);
      StripKeeps(parts[k], '\n');
      SplitCharNoChar(tags, ',', '\n', k);
    }
    Filter(seq(|parts|, k requires 0 <= k < |parts| => Strip(parts[k])), (x: string) => x != "")
  }

  /** A character other than the separator that a text lacks, none of its parts has. */
  lemma {:induction false} SplitCharNoChar(s: string, c: char, x: char, k: nat)
    requires x != c && k < |SplitChar(s, c)|
    ensures x !in s ==> x !in SplitChar(s, c)[k]
    decreases |s|
  {
    if |s| > 0 {
      var rest := SplitChar(s[1..], c);
      if s[0] == c {
        if k > 0 {
          SplitCharNoChar(s[1..], c, x, k - 1);
        }
      } else if k == 0 {
        SplitCharNoChar(s[1..], c, x, 0);
      } else {
        SplitCharNoChar(s[1..], c, x, k);
      }
    }
  }

  /** Names `save_suggestion_line` stores as they are: not blank, stripped, on one line. */
  predicate PlainNames(names: seq<string>) {
    forall k :: 0 <= k < |names| ==> names[k] != "" && Strip(names[k]) == names[k] && '\n' !in names[k]
  }

  /**
   * The tags file after `save_suggestion_line` has saved each name in
   * turn.
   */
  function SaveEach(file: string, names: seq<string>): string
    decreases |names|
  {
    if names == [] then file
    else SaveSuggestionLine(Some(SaveEach(file, names[..|names| - 1])), names[|names| - 1])
  }

  /**
   * Saving plain names one by one leaves a sorted file whose suggestions
   * are the old ones and the names.
   */
  lemma {:induction false} SaveEachLoads(file: string, names: seq<string>)
    requires PlainNames(names)
    ensures forall x :: x in Items(SaveEach(file, names)) <==> x in Items(file) || x in names
    ensures |names| > 0 ==> StrictlySorted(Items(SaveEach(file, names)))
    decreases |names|
  {
    if names != [] {
      var init, last := names[..|names| - 1], names[|names| - 1];
      PlainNamesInit(names);
      SaveEachLoads(file, init);
      SaveEachLast(file, names);
      assert Strip(last) == last && last != "" && '\n' !in last;
      SaveThenLoad(Some(SaveEach(file, init)), last);
      InitAndLast(names);
    }
  }

  /** A name is among the names when it is the last one or among the others. */
  lemma InitAndLast(names: seq<string>)
    requires |names| > 0
    ensures forall x :: x in names <==> x in names[..|names| - 1] || x == names[|names| - 1]
  {
    assert names == names[..|names| - 1] + [names[|names| - 1]];
  }

  /** Dropping the last name keeps the names plain. */
  lemma PlainNamesInit(names: seq<string>)
    requires PlainNames(names) && |names| > 0
    ensures PlainNames(names[..|names| - 1])
  {
    var init := names[..|names| - 1];
    forall k | 0 <= k < |init| ensures init[k] != "" && Strip(init[k]) == init[k] && '\n' !in init[k] {
      assert init[k] == names[k];
    }
  }

  /** The last name is saved into the file the other names left. */
  lemma SaveEachLast(file: string, names: seq<string>)
    requires |names| > 0
    ensures SaveEach(file, names) == SaveSuggestionLine(Some(SaveEach(file, names[..|names| - 1])), names[|names| - 1])
  {
  }

  /**
   * Once a name is saved, the file holds a suggestion, so loading it
   * changes nothing and gives what the file reads as.
   */
  lemma SaveEachThenLoad(file: string, names: seq<string>, defaults: seq<string>)
    requires PlainNames(names) && |names| > 0
    ensures LoadSuggestions(Some(SaveEach(file, names)), defaults) == (Items(SaveEach(file, names)), SaveEach(file, names))
  {
    SaveEachLoads(file, names);
    assert names[0] in Items(SaveEach(file, names));
  }

  /** The loop of `save_note` that saves each tag as a suggestion. */
  method SaveTags(file: string, names: seq<string>) returns (r: string)
    ensures r == SaveEach(file, names)
  {
    r := file;
    var i := 0;
    while i < |names|
      invariant 0 <= i <= |names|
      invariant r == SaveEach(file, names[..i])
    {
      assert names[..i + 1][..i] == names[..i];
      r := SaveSuggestionLine(Some(r), names[i]);
      i := i + 1;
    }
    assert names[..|names|] == names;
  }

  /** The positions of the notes shown on the selected rows. */
  function Picked(filtered: seq<nat>, sel: seq<nat>): (ids: seq<nat>)
    requires forall k :: 0 <= k < |sel| ==> sel[k] < |filtered|
    ensures |ids| == |sel|
    ensures Increasing(filtered) && Increasing(sel) ==> Increasing(ids)
  {
    seq(|sel|, k requires 0 <= k < |sel| => filtered[sel[k]])
  }

  /** A file `__init__` finds, or the empty one it creates. */
  function TextOf(file: Option<string>): string {
    if file.Some? then file.value else ""
  }

  /** `save_note`'s category: the box's text stripped, or "General" when that is empty. */
  function CategoryOf(category: string): (c: string)
    ensures c != "" && Strip(c) == c
    ensures '\n' !in category ==> '\n' !in c
  {
    StripIdempotent(category);
    StripKeeps(category, '\n');
    if Strip(category) != "" then Strip(category) else DefaultCategory
  }

  /**
   * The note `save_note` builds from the editor: title and tags stripped,
   * the category as above and the content without its trailing newlines.
   */
  function Edited(title: string, category: string, tags: string, content: string,
                  attachments: seq<string>, date: string): (n: Note)
    ensures Strip(n.title) == n.title && n.category != "" && !EndsWith(n.content, '\n')
  {
    StripIdempotent(title);
    RStripCharShape(content, '\n');
    Note(Strip(title), CategoryOf(category), Strip(tags), RStripChar(content, '\n'), attachments, date)
  }

  /**
   * After a plain name is saved the file holds a suggestion, so loading it
   * keeps it as it is; it reads as the suggestions it held and the name,
   * sorted, with no repeats.
   */
  lemma SavedLoads(file: string, item: string, defaults: seq<string>)
    ensures var saved := SaveSuggestionLine(Some(file), item);
            Strip(item) != "" && '\n' !in item ==>
              && LoadSuggestions(Some(saved), defaults) == (Items(saved), saved)
              && StrictlySorted(Items(saved))
              && forall x :: x in Items(saved) <==> x in Items(file) || x == Strip(item)
  {
    if Strip(item) != "" && '\n' !in item {
      SaveThenLoad(Some(file), item);
      assert Strip(item) in Items(SaveSuggestionLine(Some(file), item));
    }
  }

  /** The notes window of one user. */
  class Notebook {
    /** `self.notes` */
    var notes: seq<Note>
    /** `self.filtered_indices`: the position of the note on each row of the list box. */
    var filtered: seq<nat>
    /** `self.currently_loaded_idx` */
    var loaded: Option<nat>
    /** The editor's attachment list box. */
    var attachments: seq<string>
    /**
     * The texts of the user's notes, categories and tags files. The category
     * and tags boxes offer what their file reads as (`Items`): every change
     * to a suggestions file is followed by loading it into its box, and a
     * loaded file reads as the list loading returns (`LoadSuggestionsSpec`).
     */
    var notesFile: string
    var categoriesFile: string
    var tagsFile: string

    /** Every row of the list box shows a note, in the notes' order. */
    predicate Valid()
      reads this`notes, this`filtered
    {
      Increasing(filtered) && forall k :: 0 <= k < |filtered| ==> filtered[k] < |notes|
    }

    /**
     * `__init__`: the missing files are created empty, nothing is loaded
     * into the editor and the notes are read.
     */
    constructor(notesText: Option<string>, categoriesText: Option<string>, tagsText: Option<string>)
      ensures Valid()
      ensures notesFile == TextOf(notesText)
      ensures notes == NotesOfLines(FileLines(notesFile)) && filtered == Range(|notes|)
      ensures categoriesFile == LoadSuggestions(Some(TextOf(categoriesText)), DefaultCategories).1
      ensures tagsFile == LoadSuggestions(Some(TextOf(tagsText)), DefaultTags).1
      ensures loaded == None && attachments == []
    {
      // The missing files read as empty; then `reload_notes`.
      loaded, attachments := None, [];
      new;
      Reload(TextOf(notesText), TextOf(categoriesText), TextOf(tagsText));
    }

    /**
     * `reload_notes` once the notes, categories and tags files hold `text`,
     * `cats` and `tagText`: the notes of the file's non-blank lines, both
     * suggestion files loaded into their boxes, and every note shown
     * (`show_all`).
     */
    method Reload(text: string, cats: string, tagText: string)
      modifies this`notesFile, this`notes, this`filtered, this`categoriesFile, this`tagsFile
      ensures Valid()
      ensures notesFile == text
      ensures notes == NotesOfLines(FileLines(text)) && filtered == Range(|notes|)
      ensures categoriesFile == LoadSuggestions(Some(cats), DefaultCategories).1
      ensures tagsFile == LoadSuggestions(Some(tagText), DefaultTags).1
      ensures loaded == old(loaded) && attachments == old(attachments)
    {
      var read := ReadNotes(text);
      var categories := LoadSuggestions(Some(cats), DefaultCategories).1;
      var tagNames := LoadSuggestions(Some(tagText), DefaultTags).1;
      Show(text, read, categories, tagNames);
    }

    /** The files and notes a reload leaves, with every note shown. */
    method Show(text: string, read: seq<Note>, cats: string, tagText: string)
      modifies this`notesFile, this`notes, this`filtered, this`categoriesFile, this`tagsFile
      ensures Valid() && notesFile == text && notes == read && filtered == Range(|read|)
      ensures categoriesFile == cats && tagsFile == tagText
      ensures loaded == old(loaded) && attachments == old(attachments)
    {
      notesFile, notes, categoriesFile, tagsFile := text, read, cats, tagText;
      ShowAll();
    }

    /** `show_all`: every note is shown, in order. */
    method ShowAll()
      modifies this`filtered
      ensures Valid() && filtered == Range(|notes|)
    {
      filtered := Range(|notes|);
    }

    /** `save_all_notes`: one built line per note. */
    method SaveAll()
      modifies this`notesFile
      ensures notesFile == Concat(Built(notes))
    {
      notesFile := WriteNotes(notes);
    }

    /** `new_note`: the editor is cleared and no note is loaded. */
    method NewNote()
      modifies this`attachments, this`loaded
      ensures attachments == [] && loaded == None
    {
      attachments := [];
      loaded := None;
    }

    /**
     * `search_notes`: the rows show every note for a blank query (or the
     * placeholder), else the notes that hold the query, in order; a query
     * that finds nothing is reported.
     */
    method Search(input: string) returns (notFound: bool)
      modifies this`filtered
      ensures Valid()
      ensures filtered == Matches(notes, Query(input))
      ensures notFound <==> Query(input) != "" && filtered == []
    {
      var q := Query(input);
      if q == "" {
        filtered := Range(|notes|);
        notFound := false;
      } else {
        filtered := FindHits(notes, q);
        notFound := filtered == [];
      }
    }

    /**
     * `load_selected_note`: the note on the first selected row fills the
     * editor and becomes the loaded one; no selection does nothing.
     */
    method LoadSelected(sel: seq<nat>) returns (shown: Option<Note>)
      requires Valid()
      requires |sel| > 0 ==> sel[0] < |filtered|
      modifies this`attachments, this`loaded
      ensures |sel| == 0 ==> shown == None && attachments == old(attachments) && loaded == old(loaded)
      ensures |sel| > 0 ==> shown == Some(notes[filtered[sel[0]]]) && loaded == Some(filtered[sel[0]])
      ensures |sel| > 0 ==> attachments == notes[filtered[sel[0]]].attachments
    {
      shown := None;
      if |sel| == 0 {
        return;
      }
      var row := filtered[sel[0]];
      if !(0 <= row < |notes|) {
        return;
      }
      var note := notes[row];
      attachments := note.attachments;
      loaded := Some(row);
      shown := Some(note);
    }

    /** `attach_file`: a chosen path is added to the editor's list. */
    method AttachFile(path: string)
      modifies this`attachments
      ensures attachments == if path != "" then old(attachments) + [path] else old(attachments)
    {
      if path != "" {
        attachments := attachments + [path];
      }
    }

    /** `attach_link`: a URL that is not blank is added, stripped. */
    method AttachLink(url: string)
      modifies this`attachments
      ensures attachments == if Strip(url) != "" then old(attachments) + [Strip(url)] else old(attachments)
    {
      if Strip(url) != "" {
        attachments := attachments + [Strip(url)];
      }
    }

    /**
     * `remove_attachment`: the selected entries leave the editor's list;
     * when a note is loaded, it takes the remaining list and the notes are
     * saved at once.
     */
    method RemoveAttachments(sel: seq<nat>) returns (removed: bool)
      requires Valid()
      requires Increasing(sel) && forall k :: 0 <= k < |sel| ==> sel[k] < |attachments|
      modifies this`attachments, this`notes, this`notesFile
      ensures Valid()
      ensures removed <==> |sel| > 0
      ensures !removed ==> attachments == old(attachments) && notes == old(notes) && notesFile == old(notesFile)
      ensures removed ==> attachments == Without(old(attachments), Listed(sel, 0))
      ensures removed && loaded.Some? && loaded.value < |old(notes)| ==>
                notes == old(notes)[loaded.value := old(notes)[loaded.value].(attachments := attachments)]
                && notesFile == Concat(Built(notes))
      ensures removed && !(loaded.Some? && loaded.value < |old(notes)|) ==>
                notes == old(notes) && notesFile == old(notesFile)
    {
      if |sel| == 0 {
        return false;
      }
      attachments := DeleteEach(attachments, sel);
      if loaded.Some? && 0 <= loaded.value < |notes| {
        notes := notes[loaded.value := notes[loaded.value].(attachments := attachments)];
        SaveAll();
      }
      return true;
    }

    /**
     * `add_suggestion_popup` with `save_suggestion_line`: an answer that is
     * not blank is saved, stripped, to the chosen file, and that box offers
     * the file's suggestions again.
     */
    method AddSuggestion(toCategories: bool, answer: string)
      modifies this`categoriesFile, this`tagsFile
      ensures Strip(answer) == "" ==> unchanged(this)
      ensures Strip(answer) != "" && toCategories ==>
                categoriesFile ==
                  LoadSuggestions(Some(SaveSuggestionLine(Some(old(categoriesFile)), Strip(answer))), DefaultCategories).1
                && tagsFile == old(tagsFile)
      ensures Strip(answer) != "" && !toCategories ==>
                tagsFile == LoadSuggestions(Some(SaveSuggestionLine(Some(old(tagsFile)), Strip(answer))), DefaultTags).1
                && categoriesFile == old(categoriesFile)
    {
      var item := Strip(answer);
      if item == "" {
        return;
      }
      if toCategories {
        categoriesFile := SaveSuggestionLine(Some(categoriesFile), item);
        categoriesFile := LoadSuggestions(Some(categoriesFile), DefaultCategories).1;
      } else {
        tagsFile := SaveSuggestionLine(Some(tagsFile), item);
        tagsFile := LoadSuggestions(Some(tagsFile), DefaultTags).1;
      }
    }

    /**
     * `delete_note`: with a selection and a confirmation, the notes on the
     * selected rows are deleted from the highest position down, the rest
     * saved and read again, and the editor cleared; otherwise nothing
     * changes.
     */
    method DeleteNote(sel: seq<nat>, confirm: bool) returns (deleted: bool)
      requires Valid()
      requires Increasing(sel) && forall k :: 0 <= k < |sel| ==> sel[k] < |filtered|
      modifies this
      ensures Valid()
      ensures deleted <==> |sel| > 0 && confirm
      ensures !deleted ==> unchanged(this)
      ensures deleted ==> notesFile == Concat(Built(Without(old(notes), Listed(Picked(old(filtered), sel), 0))))
      ensures deleted ==> notes == NotesOfLines(FileLines(notesFile)) && filtered == Range(|notes|)
      ensures deleted ==> loaded == None && attachments == []
      ensures deleted ==> categoriesFile == LoadSuggestions(Some(old(categoriesFile)), DefaultCategories).1
      ensures deleted ==> tagsFile == LoadSuggestions(Some(old(tagsFile)), DefaultTags).1
    {
      if |sel| == 0 || !confirm {
        return false;
      }
      var rest := DeleteEach(notes, Picked(filtered, sel));
      var text := WriteNotes(rest);
      // `new_note` touches none of what `reload_notes` does, so it may come first.
      NewNote();
      Reload(text, categoriesFile, tagsFile);
      return true;
    }

    /**
     * `save_note`: a note without a title only warns. Otherwise the edited
     * note is stored, its category and tags are saved as suggestions, the
     * notes are saved and read again and the editor is cleared.
     */
    method SaveNote(title: string, category: string, tags: string, content: string, date: string, sel: seq<nat>)
      returns (saved: bool)
      requires Valid()
      modifies this
      ensures Valid()
      ensures saved <==> Strip(title) != ""
      ensures !saved ==> unchanged(this)
      ensures saved ==> notesFile == Concat(Built(Upsert(old(notes), old(filtered), sel,
                                      Edited(title, category, tags, content, old(attachments), date))))
      ensures saved ==> notes == NotesOfLines(FileLines(notesFile)) && filtered == Range(|notes|)
      ensures saved ==> loaded == None && attachments == []
      ensures saved ==>
                categoriesFile ==
                LoadSuggestions(Some(SaveSuggestionLine(Some(old(categoriesFile)), CategoryOf(category))), DefaultCategories).1
      ensures saved ==>
                tagsFile == LoadSuggestions(Some(SaveEach(old(tagsFile), TagNames(Strip(tags)))), DefaultTags).1
    {
      if Strip(title) == "" {
        return false;
      }
      var note := Edited(title, category, tags, content, attachments, date);
      // The note replaces the selected one or is appended; the position it
      // is loaded at does not outlast the `new_note` at the end.
      var stored := Upsert(notes, filtered, sel, note);
      var cats := SaveSuggestionLine(Some(categoriesFile), note.category);
      var tagText := SaveTags(tagsFile, TagNames(note.tags));
      var text := WriteNotes(stored);
      NewNote();
      Reload(text, cats, tagText);
      return true;
    }
  }
}
