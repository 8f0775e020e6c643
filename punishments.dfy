/** The drinking-mode punishment catalog and the pick that reads one prompt out of it. */
module Punishments {
  import Draw

  /** The fixed prompt catalog, in declaration order. It is constant for the
      whole program and never empty. */
  const Catalog: seq<string> := [
    "Drik 2 tår 🍺🍺",
    "Drik 3 tår 🍺🍺🍺",
    "Drik 4 tår 🍺🍺🍺🍺",
    "Drik 5 tår! 🍺🍺🍺🍺🍺",
    "Drik 6 tår!! 🍺🍺🍺🍺🍺🍺",
    "Bund din drink! 🍺⬇️",
    "Drik i 3 sekunder ⏱️",
    "Drik i 5 sekunder ⏱️🍺",
    "Drik indtil personen til venstre siger stop 🛑",
    "Drik indtil personen til højre siger stop 🛑",
    "Du + personen til venstre: Drik 2 tår hver 👫",
    "Du + personen til højre: Drik 2 tår hver 👫",
    "Alle drikker 3 tår! 🎉",
    "Alle undtagen dig drikker 2 tår! 😈",
    "Vælg en person der skal drikke 3 tår 👆",
    "Den ældste drikker 2 tår 👴",
    "Den yngste drikker 2 tår 👶",
    "Sig et fuldt navn på en spiller på 3 sekunder eller drik 3 tår 🗣️",
    "Nævn 3 lande på 5 sekunder eller drik! 🌍",
    "Nævn 5 dyr på 10 sekunder eller drik! 🦁",
    "Sig alfabetet baglæns eller drik 4 tår! 🔤",
    "Rim et ord valgt af gruppen eller drik 3 tår! 🎤",
    "Fortæl en hemmelighed eller drik 3 tår 🤫",
    "Fortæl en af dine mest pinlige oplevelser eller drik 3 tår! 😳",
    "Fortæl en joke eller drik 2 tår 😂",
    "Indrøm noget eller drik 4 tår! 🙊",
    "Du må kun bruge venstre hånd resten af spillet 🖐️",
    "Du må ikke sige 'ja' resten af runden! ❌",
    "Du må ikke sige 'nej' resten af runden! ❌",
    "Tal kun engelsk næste 2 minutter",
    "Du er blind resten af runden👀",
    "Du er stum resten af runden 🤐",
    "Du er lam fra halsen og ned resten af runden 🦵",
    "Du må ikke smile næste minut - ellers drik! 😐",
    "Ring til en tilfældig kontakt eller drik 3 tår 📱",
    "Send en besked til den 5. kontakt i din telefon 📲",
    "Post noget på Instagram story eller drik 3 tår! 📸",
    "Tag et selfie med personen til venstre 🤳",
    "Du springer en tur over ⏭️",
    "Du spiller næste runde med lukkede øjne 👀",
    "Næste person bestemmer din straf! Ellers drik 3 tår 😱",
    "Heldig! Du slipper denne gang 🍀",
    "SUPER HELDIG! Ingen straf + du vælger én der skal drikke! 🌟",
    "Uheldigt! Dobbelt straf næste gang! 💀",
    "JACKPOT! Alle andre drikker 2 tår! 🎰",
    "Waterfall! Alle begynder at drikke 🌊",
    "Tag et shot! 🥃",
    "Drik med begge hænder! 🙌",
    "Drik uden at bruge hænderne! 🐕",
    "Lav en skål-tale før du drikker! 🎤",
    "Sig 'skål' på 3 sprog før du drikker 🌐",
    "Lav dyre-lyde resten af spillet før du drikker! 🐮"
  ]

  /** The prompt shown for the injected draw `r`, which plays the part of
      Phaser.Math.Between(0, |Catalog| - 1). */
  function Pick(r: int): (p: string)
    requires Draw.IsDraw(|Catalog|, r)
    ensures p in Catalog
  {
    Catalog[r]
  }

  /** The catalog holds 52 prompts, so every pick is well defined. */
  lemma CatalogSize()
    ensures |Catalog| == 52
    ensures forall r :: Draw.IsDraw(|Catalog|, r) <==> 0 <= r < 52
  {
  }
}
