/**
  The page controller of script.js: the Luke text container, the Josephus
  panel and the two visibility classes, updated by `displayLuke`, the click
  handler on the container and the close button.
 */
module Viewer {
  import opened Wrappers
  import opened Strings
  import opened ParallelsJson
  import opened LukeText

  class Viewer {
    /** `parallelsData`: the parsed `full_parallels.json`. */
    var parallelsData: Mapping
    /** The children appended to `#luke-text-container`, headings and verse
        spans in document order (the per-chapter `div`s are flattened). */
    var container: seq<Render>
    /** The `.parallel-entry` blocks of `#josephus-content`. */
    var panel: seq<Entry>
    /** `#josephus-sidebar` has the class `visible`. */
    var sidebarVisible: bool
    /** `#main-content` has the class `sidebar-visible`. */
    var mainSidebarVisible: bool

    /** The two classes are only ever changed together. */
    ghost predicate Valid()
      reads this
    {
      sidebarVisible == mainSidebarVisible
    }

    /** The page before the data files have loaded: `parallelsData = {}`,
        nothing rendered, the panel empty and hidden. */
    constructor ()
      ensures Valid()
      ensures parallelsData == map[] && container == [] && panel == []
      ensures !sidebarVisible && !mainSidebarVisible
    {
      parallelsData := map[];
      container := [];
      panel := [];
      sidebarVisible := false;
      mainSidebarVisible := false;
    }

    /** What `initialize` does once both files have been fetched: keep the
        mapping, then render the text. */
    method OnLoaded(parallels: Mapping, lukeText: string)
      modifies this
      requires Valid()
      ensures Valid()
      ensures parallelsData == parallels
      ensures container == old(container) + Display(parallels, lukeText)
      ensures panel == old(panel) && sidebarVisible == old(sidebarVisible)
      ensures mainSidebarVisible == old(mainSidebarVisible)
    {
      parallelsData := parallels;
      DisplayLuke(lukeText);
    }

    /** `displayLuke(text)`: split into blocks, and for every block that
        matches, a heading when its chapter number differs from the last
        one, then its verse span. */
    method DisplayLuke(text: string)
      modifies this`container
      ensures container == old(container) + Display(parallelsData, text)
    {
      var blocks := SplitBlocks(text);
      var currentChapter: int := -1;
      var i := 0;
      while i < |blocks|
        invariant 0 <= i <= |blocks|
        invariant container + RenderMatches(parallelsData, Matches(blocks[i..]), currentChapter)
                  == old(container) + Display(parallelsData, text)
      {
        MatchesStep(blocks, i);
        var parsed := ParseBlock(blocks[i]);
        if parsed.Some? {
          var m := parsed.value;
          ghost var later := RenderMatches(parallelsData, Matches(blocks[i + 1..]), ChapterNumber(m));
          ghost var before := container;
          ghost var heading: seq<Render> := [];
          RenderStep(parallelsData, m, Matches(blocks[i + 1..]), currentChapter);
          if ChapterNumber(m) != currentChapter {
            currentChapter := ChapterNumber(m);
            container := container + [Heading(m.chapter)];
            heading := [Heading(m.chapter)];
          }
          var parallelRef := None;
          if m.chapter in parallelsData && m.verse in parallelsData[m.chapter] {
            parallelRef := Some(m.chapter + ":" + m.verse);
          }
          var span := Verse(m.verse, m.text, parallelRef);
          assert span == VerseOf(parallelsData, m);
          container := container + [span];
          assert container == before + heading + [span];
          AppendAssoc(before + heading, [span], later);
          AppendAssoc(before, heading, [span] + later);
        }
        i := i + 1;
      }
    }

    /** The handler on the text container. `lukeRef` is the `data-luke-ref`
        of the closest `.parallel` ancestor of the click target, if any.
        `raised` tells that the lookup threw a TypeError (no such chapter),
        which ends the handler before it changes anything. */
    method Click(lukeRef: Option<string>) returns (raised: bool)
      modifies this`panel, this`sidebarVisible, this`mainSidebarVisible
      requires Valid()
      ensures Valid()
      ensures raised <==> ClickLookup(parallelsData, lukeRef).Throws?
      ensures ClickLookup(parallelsData, lukeRef).Found? ==>
                panel == ClickLookup(parallelsData, lukeRef).entries && sidebarVisible
      ensures !ClickLookup(parallelsData, lukeRef).Found? ==>
                panel == old(panel) && sidebarVisible == old(sidebarVisible)
                && mainSidebarVisible == old(mainSidebarVisible)
    {
      var found := ClickLookup(parallelsData, lukeRef);
      raised := found.Throws?;
      if found.Found? {
        var entries := found.entries;
        panel := [];
        var k := 0;
        while k < |entries|
          invariant 0 <= k <= |entries|
          invariant panel == entries[..k]
        {
          panel := panel + [entries[k]];
          k := k + 1;
        }
        ShowSidebar();
      }
    }

    /** `showSidebar`: both classes added; adding a present class changes
        nothing, so the result does not depend on the previous state. */
    method ShowSidebar()
      modifies this`sidebarVisible, this`mainSidebarVisible
      ensures Valid() && sidebarVisible
    {
      sidebarVisible := true;
      mainSidebarVisible := true;
    }

    /** `hideSidebar`, the close button's handler: both classes removed,
        whatever the previous state. */
    method HideSidebar()
      modifies this`sidebarVisible, this`mainSidebarVisible
      ensures Valid() && !sidebarVisible
    {
      sidebarVisible := false;
      mainSidebarVisible := false;
    }
  }
}
