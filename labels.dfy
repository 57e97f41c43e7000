/** How the console describes a fragment's flags. The flags/offset word keeps
    its three flag bits on top (section 3.1 of RFC 791: reserved, then
    Don't-Fragment, then More-Fragments), so after the shift by 13 the flags
    value has More-Fragments in bit 0 and Don't-Fragment in bit 1. The
    display tests bits 2 and 1 instead; LabelAsWritten keeps that, and
    Label reads the bits where they are. */
module FragmentLabels {
  import opened Ipv4

  /** What the display prints about the flags: whether it adds "Don't
      Fragment", and whether it then says "More Fragments" (otherwise it says
      "Last Fragment"). */
  datatype FlagLabel = FlagLabel(dontFragment: bool, moreFragments: bool)

  /** The display as written: Don't-Fragment from bit 2 of the shifted flags
      (the reserved bit) and More-Fragments from bit 1 (the Don't-Fragment
      bit). */
  function LabelAsWritten(word: uint16): (l: FlagLabel)
    ensures l.moreFragments <==> DontFragmentSet(word)
    ensures l.dontFragment <==> FlagBits(word) / 4 % 2 == 1
  {
    var flags := FlagBits(word);
    FlagLabel(flags / 4 % 2 == 1, flags / 2 % 2 == 1)
  }

  /** The display with each flag read from its own bit. */
  function Label(word: uint16): (l: FlagLabel)
    ensures l.moreFragments <==> MoreFragmentsSet(word)
    ensures l.dontFragment <==> DontFragmentSet(word)
  {
    var flags := FlagBits(word);
    FlagLabel(flags / 2 % 2 == 1, flags % 2 == 1)
  }

  /** As written, the first fragment of every split packet is announced as
      the last fragment, and a packet sent whole with DF set is announced as
      having more fragments (and without Don't Fragment). */
  lemma AsWrittenMislabels(p: Packet, mtu: int)
    requires CanFragment(p, mtu)
    ensures p.header.totalLen as int > mtu ==>
      !LabelAsWritten(Fragmentation(p, mtu)[0].header.flagsFragOffset).moreFragments &&
      |Fragmentation(p, mtu)| > 1
    ensures p.header.totalLen as int <= mtu && p.header.flagsFragOffset == DONT_FRAGMENT ==>
      LabelAsWritten(Fragmentation(p, mtu)[0].header.flagsFragOffset) == FlagLabel(false, true) &&
      |Fragmentation(p, mtu)| == 1
  {
    if p.header.totalLen as int > mtu {
      FragmentSizes(p, mtu);
      FragmentOffsets(p, mtu, 0);
    }
  }

  /** A concrete instance: the word of a first fragment (More-Fragments set,
      offset 0) is shown as "Last Fragment", the word of an unsplit packet
      from the builder (DF set) as "More Fragments". */
  lemma AsWrittenExample()
    ensures LabelAsWritten(MORE_FRAGMENTS) == FlagLabel(false, false)
    ensures LabelAsWritten(DONT_FRAGMENT) == FlagLabel(false, true)
    ensures Label(MORE_FRAGMENTS) == FlagLabel(false, true)
    ensures Label(DONT_FRAGMENT) == FlagLabel(true, false)
  {
  }

  /** Read from the right bits, the label of every fragment says "More
      Fragments" exactly when another fragment follows, and never "Don't
      Fragment" on a split packet; a packet sent whole keeps its own flags. */
  lemma LabelsMatchFragments(p: Packet, mtu: int)
    requires CanFragment(p, mtu)
    ensures p.header.totalLen as int > mtu ==>
      forall i :: 0 <= i < |Fragmentation(p, mtu)| ==>
        Label(Fragmentation(p, mtu)[i].header.flagsFragOffset) ==
        FlagLabel(false, i < |Fragmentation(p, mtu)| - 1)
    ensures p.header.totalLen as int <= mtu ==>
      Label(Fragmentation(p, mtu)[0].header.flagsFragOffset) == Label(p.header.flagsFragOffset)
  {
    if p.header.totalLen as int > mtu {
      forall i | 0 <= i < |Fragmentation(p, mtu)|
        ensures Label(Fragmentation(p, mtu)[i].header.flagsFragOffset) ==
                FlagLabel(false, i < |Fragmentation(p, mtu)| - 1)
      {
        FragmentOffsets(p, mtu, i);
      }
    }
  }
}
