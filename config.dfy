/** The fixed configuration of js/shared.js: the `MENU` groups and the section
    `LABELS`. */
module Config {
  /** An entry of `MENU`: a label and the keys of its sections. */
  datatype Group = Group(name: string, children: seq<string>)

  /** `MENU`: eleven groups in display order. */
  const Menu: seq<Group> :=
    [
      Group("Informations g\U{00E9}n\U{00E9}rales", ["informations_generales"]),
      Group("Embauche et rupture", ["periode_essai", "delai_prevenance", "preavis"]),
      Group("Indemnit\U{00E9}s de rupture", ["indemnite_licenciement", "indemnite_depart_retraite", "indemnite_mise_retraite", "indemnite_precarite", "indemnite_rupture_conventionnelle"]),
      Group("Cong\U{00E9}s", ["conges_payes", "evenements_familiaux"]),
      Group("Temps de travail", ["durees_travail", "heures_supplementaires", "majoration_nuit", "majoration_dimanche", "majoration_ferie", "forfait_jours"]),
      Group("Am\U{00E9}nagement du temps", ["temps_partiel", "amenagement_temps_travail", "cet"]),
      Group("Maintien de salaire", ["maladie", "accident_travail", "maternite_paternite"]),
      Group("Protection sociale", ["cotisation_mutuelle", "cotisation_prevoyance", "cotisation_retraite"]),
      Group("Paritarisme", ["paritarisme_financement"]),
      Group("Alternance et stages", ["apprenti", "contrat_professionnalisation", "stagiaire"]),
      Group("Classification et r\U{00E9}mun\U{00E9}ration", ["classification", "grille_remuneration", "primes_indemnites_avantages"])
    ]

  /** `LABELS`: the display name of each of the 33 sections. */
  const Labels: map<string, string> :=
    map[
      "informations_generales" := "Informations g\U{00E9}n\U{00E9}rales",
      "periode_essai" := "P\U{00E9}riode d'essai",
      "delai_prevenance" := "D\U{00E9}lai de pr\U{00E9}venance",
      "preavis" := "Pr\U{00E9}avis",
      "indemnite_licenciement" := "Indemnit\U{00E9} de licenciement",
      "indemnite_depart_retraite" := "D\U{00E9}part volontaire \U{00E0} la retraite",
      "indemnite_mise_retraite" := "Mise \U{00E0} la retraite",
      "indemnite_precarite" := "Indemnit\U{00E9} de pr\U{00E9}carit\U{00E9}",
      "indemnite_rupture_conventionnelle" := "Rupture conventionnelle",
      "conges_payes" := "Cong\U{00E9}s pay\U{00E9}s",
      "evenements_familiaux" := "\U{00C9}v\U{00E9}nements familiaux",
      "durees_travail" := "Dur\U{00E9}e du travail",
      "heures_supplementaires" := "Heures suppl\U{00E9}mentaires",
      "majoration_nuit" := "Majoration de nuit",
      "majoration_dimanche" := "Majoration du dimanche",
      "majoration_ferie" := "Jours f\U{00E9}ri\U{00E9}s",
      "forfait_jours" := "Forfait jours",
      "temps_partiel" := "Temps partiel",
      "amenagement_temps_travail" := "Am\U{00E9}nagement du temps de travail",
      "cet" := "Compte \U{00C9}pargne Temps",
      "maladie" := "Maladie",
      "accident_travail" := "Accident du travail",
      "maternite_paternite" := "Maternit\U{00E9} / Paternit\U{00E9}",
      "cotisation_mutuelle" := "Mutuelle",
      "cotisation_prevoyance" := "Pr\U{00E9}voyance",
      "cotisation_retraite" := "Retraite compl\U{00E9}mentaire",
      "paritarisme_financement" := "Paritarisme et financement",
      "apprenti" := "Apprentissage",
      "contrat_professionnalisation" := "Contrat de professionnalisation",
      "stagiaire" := "Stagiaire",
      "classification" := "Classification",
      "grille_remuneration" := "Grille de r\U{00E9}mun\U{00E9}ration",
      "primes_indemnites_avantages" := "Primes, indemnit\U{00E9}s et avantages"
    ]

  /** `LABELS[key] || key`, for a table of labels `labels`. */
  function LabelOf(labels: map<string, string>, key: string): string {
    if key in labels && labels[key] != [] then labels[key] else key
  }

  /** Every section of the menu has a label of its own. */
  lemma MenuLabelled()
    ensures forall g, k :: 0 <= g < |Menu| && k in Menu[g].children ==> k in Labels && LabelOf(Labels, k) == Labels[k]
  {
    MenuKeysLabelled();
    LabelsNonEmpty();
  }

  lemma MenuKeysLabelled()
    ensures forall g, k :: 0 <= g < |Menu| && k in Menu[g].children ==> k in Labels
  {
  }

  lemma LabelsNonEmpty()
    ensures forall k :: k in Labels ==> Labels[k] != []
  {
  }
}
